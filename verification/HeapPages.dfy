/** The pages of the kernel heap: which it has, and that no call loses one or gives one back too often. */
module HeapPages {
  import opened PageTracker
  import opened HeapState

  function RunPages(h: nat, n: nat): (s: seq<nat>)
    ensures |s| == n && forall i :: 0 <= i < n ==> s[i] == h + i * PAGE
  {
    if n == 0 then [] else RunPages(h, n - 1) + [h + (n - 1) * PAGE]
  }

  /** The page at q belongs to a large block. */
  predicate InRun(x: Block, q: nat) {
    x.cap > PAGE && q % PAGE == 0 && x.base <= q < x.base + x.cap
  }

  /** The heap has the page at q: it is cut into blocks, or part of a large block. */
  ghost predicate Owns(s: State, q: nat) {
    q in s.view || Large(s.live, q)
  }

  ghost predicate Large(live: map<nat, Block>, q: nat) {
    exists u :: u in live && InRun(live[u], q)
  }

  /** What the heap has after a call, and what it gave back, is what it had and what it was given; it has nothing of
      what it gave back, and gave no page back twice. */
  ghost predicate Conserves(s: State, given: seq<nat>, s': State, released: seq<nat>) {
    && (forall q :: (Owns(s', q) || q in released) <==> (Owns(s, q) || q in given))
    && (forall i :: 0 <= i < |released| ==> Unowned(s', released[i], PAGE))
    && NoDup(released)
  }

  lemma UnownedOwns(s: State, q: nat)
    requires Unowned(s, q, PAGE)
    ensures !Owns(s, q)
  {
    forall u | u in s.live
      ensures !InRun(s.live[u], q)
    {
      assert Disjoint(Block(q, PAGE), s.live[u]);
    }
  }

  /** The pages of a run are the multiples of the page size in it. */
  lemma RunHas(h: nat, n: nat, q: nat)
    requires h % PAGE == 0
    ensures q in RunPages(h, n) <==> q % PAGE == 0 && h <= q < h + PAGE * n
  {
    if q in RunPages(h, n) {
      var i :| 0 <= i < n && RunPages(h, n)[i] == q;
      Multiple(h, i);
    }
    if q % PAGE == 0 && h <= q < h + PAGE * n {
      var i := (q - h) / PAGE;
      Between(h, q);
      assert RunPages(h, n)[i] == q;
    }
  }

  lemma Multiple(h: nat, i: nat)
    requires h % PAGE == 0
    ensures (h + i * PAGE) % PAGE == 0
  {
  }

  lemma Between(h: nat, q: nat)
    requires h % PAGE == 0 && q % PAGE == 0 && h <= q
    ensures q == h + (q - h) / PAGE * PAGE
  {
  }

  // ---------- The steps ----------

  lemma SamePages(s: State, s': State)
    requires s'.view.Keys == s.view.Keys
    requires forall q :: Large(s'.live, q) <==> Large(s.live, q)
    ensures Conserves(s, [], s', [])
  {
    forall q
      ensures Owns(s', q) <==> Owns(s, q)
    {
      assert q in s.view <==> q in s.view.Keys;
      assert q in s'.view <==> q in s'.view.Keys;
    }
  }

  lemma Unchanged(s: State, s': State)
    requires s'.view.Keys == s.view.Keys && s'.live == s.live
    ensures Conserves(s, [], s', [])
  {
    hide Conserves;
    SamePages(s, s');
  }

  lemma SmallTaken(s: State, s': State, u: nat, x: Block)
    requires u !in s.live && x.cap <= PAGE && s'.live == s.live[u := x] && s'.view.Keys == s.view.Keys
    ensures Conserves(s, [], s', [])
  {
    hide Conserves;
    forall q
      ensures Large(s'.live, q) <==> Large(s.live, q)
    {
      assert forall v :: v in s.live ==> v in s'.live && s'.live[v] == s.live[v];
    }
    SamePages(s, s');
  }

  lemma SmallFreed(s: State, s': State, u: nat)
    requires u in s.live && s.live[u].cap <= PAGE && s'.live == s.live - {u} && s'.view.Keys == s.view.Keys
    ensures Conserves(s, [], s', [])
  {
    hide Conserves;
    forall q
      ensures Large(s'.live, q) <==> Large(s.live, q)
    {
      if v :| v in s.live && InRun(s.live[v], q) {
        assert v in s'.live && InRun(s'.live[v], q);
      }
    }
    SamePages(s, s');
  }

  /** A block gets another pointer. */
  lemma RekeyedPages(s: State, s': State, u: nat, w: nat)
    requires u in s.live && w !in s.live && s'.view == s.view && s'.live == (s.live - {u})[w := s.live[u]]
    ensures Conserves(s, [], s', [])
  {
    hide Conserves, InRun;
    forall q
      ensures Large(s'.live, q) <==> Large(s.live, q)
    {
      if v :| v in s.live && InRun(s.live[v], q) {
        var k := if v == u then w else v;
        assert k in s'.live && InRun(s'.live[k], q);
      }
      if v :| v in s'.live && InRun(s'.live[v], q) {
        var k := if v == w then u else v;
        assert k in s.live && InRun(s.live[k], q);
      }
    }
    SamePages(s, s');
  }

  /** A page that was given and goes back at once. */
  lemma Declined(s: State, s': State, page: nat)
    requires s'.view.Keys == s.view.Keys && s'.live == s.live && Unowned(s, page, PAGE)
    ensures Conserves(s, [page], s', [page])
  {
    hide Owns;
    Unchanged(s, s');
    assert forall q :: q in s'.view ==> q in s.view.Keys;
  }

  lemma TrackedPages(s: State, s': State, page: nat)
    requires s'.view.Keys == s.view.Keys + {page} && s'.live == s.live
    ensures Conserves(s, [page], s', [])
  {
    forall q
      ensures Owns(s', q) <==> Owns(s, q) || q == page
    {
      assert q in s.view <==> q in s.view.Keys;
      assert q in s'.view <==> q in s'.view.Keys;
    }
  }

  lemma RunTaken(s: State, s': State, u: nat, page: nat, n: nat)
    requires u !in s.live && page % PAGE == 0 && n > 1
    requires s'.view == s.view && s'.live == s.live[u := Block(page, PAGE * n)]
    ensures Conserves(s, RunPages(page, n), s', [])
  {
    forall q
      ensures Owns(s', q) <==> Owns(s, q) || q in RunPages(page, n)
    {
      RunHas(page, n, q);
      if q in RunPages(page, n) {
        assert InRun(s'.live[u], q);
      }
      if v :| v in s.live && InRun(s.live[v], q) {
        assert InRun(s'.live[v], q);
      }
      if v :| v in s'.live && InRun(s'.live[v], q) {
        assert v != u ==> InRun(s.live[v], q);
      }
    }
  }

  lemma RunFreed(s: State, s': State, u: nat)
    requires Inv(s) && u in s.live && s.live[u].cap > PAGE && s'.view == s.view && s'.live == s.live - {u}
    requires Unowned(s', s.live[u].base, s.live[u].cap)
    ensures Conserves(s, [], s', RunPages(s.live[u].base, s.live[u].cap / PAGE))
  {
    hide Lists, Pages, Filled, Separate, Unowned;
    var x := s.live[u];
    var n := x.cap / PAGE;
    assert LiveBlock(s, x);
    forall q
      ensures (Owns(s', q) || q in RunPages(x.base, n)) <==> Owns(s, q)
    {
      RunHas(x.base, n, q);
      if v :| v in s.live && InRun(s.live[v], q) {
        assert v != u ==> InRun(s'.live[v], q);
      }
      if v :| v in s'.live && InRun(s'.live[v], q) {
        assert InRun(s.live[v], q);
      }
      if q in RunPages(x.base, n) {
        assert InRun(s.live[u], q);
      }
    }
    RunUnowned(s', x.base, x.cap, n);
  }

  lemma RunUnowned(s: State, h: nat, size: nat, n: nat)
    requires Unowned(s, h, size) && n * PAGE <= size
    ensures forall i :: 0 <= i < n ==> Unowned(s, RunPages(h, n)[i], PAGE)
  {
    forall i | 0 <= i < n
      ensures Unowned(s, RunPages(h, n)[i], PAGE)
    {
      assert (i + 1) * PAGE <= n * PAGE;
    }
  }

  lemma PageDropped(s: State, s': State, u: nat, page: nat)
    requires page in s.view && s'.view == s.view - {page} && Unowned(s', page, PAGE)
    requires u in s.live && s.live[u].cap <= PAGE && s'.live == s.live - {u}
    ensures Conserves(s, [], s', [page])
  {
    forall q
      ensures (Owns(s', q) || q == page) <==> Owns(s, q)
    {
      if v :| v in s.live && InRun(s.live[v], q) {
        assert v in s'.live && InRun(s'.live[v], q);
      }
      if v :| v in s'.live && InRun(s'.live[v], q) {
        assert v in s.live && InRun(s.live[v], q);
      }
    }
  }

  /** One call after another. */
  lemma ConservesThen(s: State, given: seq<nat>, s1: State, s2: State, released: seq<nat>)
    requires Conserves(s, given, s1, []) && Conserves(s1, [], s2, released)
    ensures Conserves(s, given, s2, released)
  {
    hide Owns, Unowned;
    forall q
      ensures (Owns(s2, q) || q in released) <==> (Owns(s, q) || q in given)
    {
      assert Owns(s1, q) || q in [] <==> Owns(s, q) || q in given;
      assert Owns(s2, q) || q in released <==> Owns(s1, q) || q in [];
    }
  }
}
