/** The bookkeeping of the kernel heap as a value: tracked pages, free lists and live blocks, and what
    each step does to them. */
module HeapState {
  import opened PageTracker

  const PAGE: nat := 4096
  const BUCKETS: nat := 8
  const HEADER: nat := 16

  /** get_bucket_size. */
  function BlockSize(b: nat): (s: nat)
    requires b < BUCKETS
    ensures 32 <= s <= PAGE && PAGE % s == 0 && s % 32 == 0
  {
    if b == 0 then 32 else if b == 1 then 64 else if b == 2 then 128 else if b == 3 then 256
    else if b == 4 then 512 else if b == 5 then 1024 else if b == 6 then 2048 else 4096
  }

  function BlockCount(b: nat): nat
    requires b < BUCKETS
  {
    PAGE / BlockSize(b)
  }

  /** The number of bits of n: 64 - clz(n) for a 64-bit n. */
  function BitLength(n: nat): nat {
    if n == 0 then 0 else 1 + BitLength(n / 2)
  }

  /** get_bucket_index of a size up to a page. */
  function BucketIndex(size: nat): nat {
    if size <= 32 then 0 else if BitLength(size - 1) < 5 then 0 else BitLength(size - 1) - 5
  }

  function Pow2(k: nat): (p: nat)
    ensures p > 0
  {
    if k == 0 then 1 else 2 * Pow2(k - 1)
  }

  lemma {:induction false} BitLengthBounds(n: nat)
    requires n > 0
    ensures BitLength(n) > 0 && Pow2(BitLength(n) - 1) <= n < Pow2(BitLength(n))
  {
    if n > 1 {
      BitLengthBounds(n / 2);
    }
  }

  lemma {:induction false} Pow2Grows(j: nat, k: nat)
    requires j <= k
    ensures Pow2(j) <= Pow2(k)
    decreases k
  {
    if j < k {
      Pow2Grows(j, k - 1);
    }
  }

  lemma BlockSizePow(b: nat)
    requires b < BUCKETS
    ensures BlockSize(b) == Pow2(b + 5)
  {
    assert Pow2(5) == 32;
    assert Pow2(8) == 256;
    assert Pow2(11) == 2048;
  }

  /** The bucket is the smallest that fits. */
  lemma BucketFits(size: nat)
    requires size <= PAGE
    ensures BucketIndex(size) < BUCKETS && size <= BlockSize(BucketIndex(size))
    ensures BucketIndex(size) > 0 ==> BlockSize(BucketIndex(size) - 1) < size
  {
    hide BlockSize, BitLength, Pow2;
    BlockSizePow(0);
    BlockSizePow(7);
    BlockSizeEnds();
    if size > 32 {
      var k := BitLength(size - 1);
      BitLengthBounds(size - 1);
      if k > 12 {
        Pow2Grows(12, k - 1);
      } else if k < 6 {
        Pow2Grows(k, 5);
      } else {
        BlockSizePow(k - 5);
        BlockSizePow(k - 6);
      }
    }
  }

  lemma BlockSizeEnds()
    ensures BlockSize(0) == 32 && BlockSize(7) == PAGE
  {
  }

  /** Freed blocks go back to the bucket they came from. */
  lemma BucketBack(b: nat)
    requires b < BUCKETS
    ensures BucketIndex(BlockSize(b)) == b
  {
    var s := BlockSize(b);
    BucketFits(s);
    var k := BucketIndex(s);
  }

  function PageOf(a: nat): nat {
    a - a % PAGE
  }

  /** A block in use: its header address and its size with the header. */
  datatype Block = Block(base: nat, cap: nat)

  /** `live` has the block of every pointer the clients hold. */
  datatype State = State(view: map<nat, Info>, buckets: seq<seq<nat>>, live: map<nat, Block>)

  ghost predicate NoDup(list: seq<nat>) {
    forall i, j :: 0 <= i < j < |list| ==> list[i] != list[j]
  }

  /** The address is that of a block of bucket b in a tracked page. */
  predicate IsBlock(view: map<nat, Info>, a: nat, b: nat)
    requires b < BUCKETS
  {
    PageOf(a) in view && view[PageOf(a)].bucket == b && a % BlockSize(b) == 0
  }

  /** The listed blocks of a page. */
  function FreeSet(list: seq<nat>, p: nat): set<nat> {
    set a | a in list && PageOf(a) == p
  }

  function Bases(live: map<nat, Block>): set<nat> {
    set u | u in live :: live[u].base
  }

  predicate Disjoint(x: Block, y: Block) {
    x.base + x.cap <= y.base || y.base + y.cap <= x.base
  }

  ghost predicate Lists(s: State) {
    && |s.buckets| == BUCKETS
    && (forall b :: 0 <= b < BUCKETS ==> NoDup(s.buckets[b]))
    && (forall b, a :: 0 <= b < BUCKETS && a in s.buckets[b] ==> IsBlock(s.view, a, b))
  }

  /** Every tracked page is cut into blocks of one size, and its count of free blocks is exact. */
  ghost predicate Pages(s: State)
    requires |s.buckets| == BUCKETS
  {
    forall p :: p in s.view ==>
      && p % PAGE == 0 && s.view[p].bucket < BUCKETS && s.view[p].total == BlockCount(s.view[p].bucket)
      && s.view[p].free == |FreeSet(s.buckets[s.view[p].bucket], p)|
  }

  /** Every block of a tracked page is listed or live. */
  ghost predicate Filled(s: State)
    requires |s.buckets| == BUCKETS
  {
    forall a: nat, b :: 0 <= b < BUCKETS && IsBlock(s.view, a, b) ==> a in s.buckets[b] || a in Bases(s.live)
  }

  /** A live block is an unlisted block of a tracked page, or a run of two or more untracked pages. */
  ghost predicate LiveBlock(s: State, x: Block)
    requires |s.buckets| == BUCKETS
  {
    if x.cap <= PAGE then
      && PageOf(x.base) in s.view
      && var b := s.view[PageOf(x.base)].bucket;
         b < BUCKETS && x.cap == BlockSize(b) && x.base % x.cap == 0 && x.base !in s.buckets[b]
    else
      x.base % PAGE == 0 && x.cap % PAGE == 0 && forall q :: q in s.view ==> !(x.base <= q < x.base + x.cap)
  }

  ghost predicate Lives(s: State)
    requires |s.buckets| == BUCKETS
  {
    && (forall u :: u in s.live ==> LiveBlock(s, s.live[u]))
    && (forall u :: u in s.live ==> s.live[u].base + HEADER <= u <= s.live[u].base + s.live[u].cap)
  }

  ghost predicate Separate(live: map<nat, Block>) {
    forall u, v :: u in live && v in live && u != v ==> Disjoint(live[u], live[v])
  }

  ghost predicate Inv(s: State) {
    |s.buckets| == BUCKETS && Lists(s) && Pages(s) && Filled(s) && Lives(s) && Separate(s.live)
  }

  // Addresses.

  lemma NoGrowth(s: nat, d: int)
    requires d < 1
    ensures s * d <= 0
  {
  }

  lemma Multiples(a: nat, c: nat, s: nat)
    requires s > 0 && a % s == 0 && c % s == 0 && a < c
    ensures a + s <= c
  {
    var d := c / s - a / s;
    assert a == s * (a / s) && c == s * (c / s) && s * d == c - a;
    if d < 1 {
      NoGrowth(s, d);
    } else {
      assert s * (d - 1) >= 0;
    }
  }

  lemma PageMultiple(p: nat, b: nat)
    requires p % PAGE == 0 && b < BUCKETS
    ensures p % BlockSize(b) == 0
  {
    hide BlockSize, BlockCount;
    CountTimesSize(b);
    var s, n, q := BlockSize(b), BlockCount(b), p / PAGE;
    assert p == PAGE * q;
    assert p == s * (n * q) by {
      assert n * s * q == s * (n * q);
    }
    ProductMultiple(s, n * q);
  }

  /** A block lies in its page. */
  lemma BlockInPage(a: nat, b: nat)
    requires b < BUCKETS && a % BlockSize(b) == 0
    ensures PageOf(a) <= a && a + BlockSize(b) <= PageOf(a) + PAGE && PageOf(a) % PAGE == 0
  {
    hide BlockSize;
    PageOfIs(a);
    PageMultiple(PageOf(a) + PAGE, b);
    Multiples(a, PageOf(a) + PAGE, BlockSize(b));
  }

  lemma PageOfIs(a: nat)
    ensures PageOf(a) <= a < PageOf(a) + PAGE && PageOf(a) % PAGE == 0 && (PageOf(a) + PAGE) % PAGE == 0
  {
  }

  /** Two blocks of tracked pages are equal or disjoint. */
  lemma BlocksApart(view: map<nat, Info>, a: nat, b: nat, c: nat, d: nat)
    requires b < BUCKETS && d < BUCKETS && IsBlock(view, a, b) && IsBlock(view, c, d) && a != c
    ensures Disjoint(Block(a, BlockSize(b)), Block(c, BlockSize(d)))
  {
    hide BlockSize;
    BlockInPage(a, b);
    BlockInPage(c, d);
    if PageOf(a) == PageOf(c) {
      if a < c {
        Multiples(a, c, BlockSize(b));
      } else {
        Multiples(c, a, BlockSize(b));
      }
    } else if PageOf(a) < PageOf(c) {
      Multiples(PageOf(a), PageOf(c), PAGE);
    } else {
      Multiples(PageOf(c), PageOf(a), PAGE);
    }
  }

  /** A block of a tracked page is disjoint from every live block but itself. */
  lemma BlockApart(s: State, a: nat, b: nat, x: Block)
    requires |s.buckets| == BUCKETS && b < BUCKETS && IsBlock(s.view, a, b) && LiveBlock(s, x) && x.base != a
    ensures Disjoint(Block(a, BlockSize(b)), x)
  {
    hide BlockSize;
    BlockInPage(a, b);
    if x.cap <= PAGE {
      BlocksApart(s.view, a, b, x.base, s.view[PageOf(x.base)].bucket);
    } else if x.base > PageOf(a) {
      Multiples(PageOf(a), x.base, PAGE);
    } else {
      RunEnd(x.base, x.cap, PageOf(a));
    }
  }

  lemma RunEnd(base: nat, cap: nat, p: nat)
    requires base % PAGE == 0 && cap % PAGE == 0 && p % PAGE == 0 && !(base <= p < base + cap) && base <= p
    ensures base + cap <= p
  {
  }

  /** No listed block overlaps a live one. */
  lemma FreeApart(s: State, a: nat, b: nat, u: nat)
    requires Inv(s) && b < BUCKETS && a in s.buckets[b] && u in s.live
    ensures Disjoint(Block(a, BlockSize(b)), s.live[u])
  {
    hide BlockSize;
    BlockApart(s, a, b, s.live[u]);
  }

  // Taking the first block of a list.

  function WithFree(view: map<nat, Info>, p: nat, n: nat): map<nat, Info> {
    if p in view then view[p := view[p].(free := n)] else view
  }

  ghost function Taken(s: State, b: nat): State
    requires Inv(s) && b < BUCKETS && s.buckets[b] != []
  {
    var a := s.buckets[b][0];
    assert a in s.buckets[b];
    var free := s.view[PageOf(a)].free;
    State(WithFree(s.view, PageOf(a), if free > 0 then free - 1 else 0), s.buckets[b := s.buckets[b][1..]],
          s.live[a + HEADER := Block(a, BlockSize(b))])
  }

  lemma FreeSetTail(list: seq<nat>, p: nat)
    requires list != [] && NoDup(list)
    ensures FreeSet(list[1..], p) == FreeSet(list, p) - {list[0]}
    ensures PageOf(list[0]) == p ==> |FreeSet(list, p)| == |FreeSet(list[1..], p)| + 1
    ensures PageOf(list[0]) != p ==> FreeSet(list, p) == FreeSet(list[1..], p)
  {
    hide PageOf;
    var f, g := FreeSet(list, p), FreeSet(list[1..], p);
    forall x | x in f - {list[0]}
      ensures x in g
    {
      var i :| 0 <= i < |list| && list[i] == x;
      assert list[1..][i - 1] == x;
    }
    if PageOf(list[0]) == p {
      assert f == g + {list[0]};
    } else {
      assert f == g;
    }
  }

  lemma TakenLists(s: State, b: nat)
    requires Inv(s) && b < BUCKETS && s.buckets[b] != []
    ensures Lists(Taken(s, b)) && Pages(Taken(s, b))
  {
    hide BlockSize, PageOf, FreeSet, Filled, Lives, Separate;
    var a, t := s.buckets[b][0], Taken(s, b);
    assert a in s.buckets[b] && IsBlock(s.view, a, b);
    forall p | p in t.view
      ensures t.view[p].free == |FreeSet(t.buckets[t.view[p].bucket], p)|
    {
      if t.view[p].bucket == b {
        FreeSetTail(s.buckets[b], p);
      }
    }
    forall c, x | 0 <= c < BUCKETS && x in t.buckets[c]
      ensures IsBlock(t.view, x, c)
    {
      assert x in s.buckets[c];
    }
  }

  lemma TakenFilled(s: State, b: nat)
    requires Inv(s) && b < BUCKETS && s.buckets[b] != []
    ensures Filled(Taken(s, b))
  {
    hide BlockSize, PageOf, Pages, Lives, Separate;
    var a, t := s.buckets[b][0], Taken(s, b);
    assert t.live[a + HEADER].base == a;
    forall x: nat, c | 0 <= c < BUCKETS && IsBlock(t.view, x, c)
      ensures x in t.buckets[c] || x in Bases(t.live)
    {
      assert IsBlock(s.view, x, c);
      if x != a {
        if x in Bases(s.live) {
          KeepBase(s, b, x);
        } else if c == b {
          var i :| 0 <= i < |s.buckets[b]| && s.buckets[b][i] == x;
          assert s.buckets[b][1..][i - 1] == x;
        }
      }
    }
  }

  lemma KeepBase(s: State, b: nat, x: nat)
    requires Inv(s) && b < BUCKETS && s.buckets[b] != [] && x in Bases(s.live)
    ensures x in Bases(Taken(s, b).live)
  {
    hide BlockSize, PageOf, Pages, Separate, Filled, LiveBlock;
    var u :| u in s.live && s.live[u].base == x;
    FreshKey(s, b);
    assert Taken(s, b).live[u].base == x;
  }

  /** The new pointer is not in use. */
  lemma FreshKey(s: State, b: nat)
    requires Inv(s) && b < BUCKETS && s.buckets[b] != []
    ensures s.buckets[b][0] + HEADER !in s.live
    ensures forall u :: u in s.live ==> Disjoint(Block(s.buckets[b][0], BlockSize(b)), s.live[u])
  {
    hide BlockSize, PageOf, Pages, Separate, Filled;
    var a := s.buckets[b][0];
    assert a in s.buckets[b];
    forall u | u in s.live
      ensures Disjoint(Block(a, BlockSize(b)), s.live[u])
    {
      FreeApart(s, a, b, u);
    }
  }

  lemma TakenLives(s: State, b: nat)
    requires Inv(s) && b < BUCKETS && s.buckets[b] != []
    ensures Lives(Taken(s, b)) && Separate(Taken(s, b).live)
  {
    hide BlockSize, PageOf, Pages, Filled, LiveBlock, Lists;
    var a, t := s.buckets[b][0], Taken(s, b);
    FreshKey(s, b);
    TakenBlock(s, b);
    forall u | u in s.live
      ensures LiveBlock(t, s.live[u])
    {
      StillLive(s, b, s.live[u]);
    }
  }

  lemma TakenBlock(s: State, b: nat)
    requires Inv(s) && b < BUCKETS && s.buckets[b] != []
    ensures LiveBlock(Taken(s, b), Block(s.buckets[b][0], BlockSize(b))) && BlockSize(b) >= HEADER
  {
    hide PageOf, Pages, Filled, Lives, Separate;
    var a := s.buckets[b][0];
    assert a in s.buckets[b] && IsBlock(s.view, a, b);
    assert a !in s.buckets[b][1..];
  }

  lemma StillLive(s: State, b: nat, x: Block)
    requires Inv(s) && b < BUCKETS && s.buckets[b] != [] && LiveBlock(s, x)
    ensures LiveBlock(Taken(s, b), x)
  {
    hide BlockSize, PageOf, Pages, Filled, Lives, Separate, NoDup;
    assert s.buckets[b][0] in s.buckets[b];
  }

  lemma TakenKeeps(s: State, b: nat)
    requires Inv(s) && b < BUCKETS && s.buckets[b] != []
    ensures Inv(Taken(s, b)) && s.buckets[b][0] + HEADER !in s.live
  {
    hide BlockSize, PageOf, Pages, Filled, Lives, Separate;
    TakenLists(s, b);
    TakenFilled(s, b);
    TakenLives(s, b);
    FreshKey(s, b);
  }

  // A new page.

  /** The first n blocks of a page, as they are pushed. */
  function PageBlocks(p: nat, size: nat, n: nat): (list: seq<nat>) {
    if n == 0 then [] else [p + (n - 1) * size] + PageBlocks(p, size, n - 1)
  }

  lemma {:induction false} PageBlocksAre(p: nat, size: nat, n: nat)
    requires size > 0 && p % size == 0
    ensures forall a :: a in PageBlocks(p, size, n) ==> p <= a < p + n * size && a % size == 0
    ensures forall a: nat :: p <= a < p + n * size && a % size == 0 ==> a in PageBlocks(p, size, n)
    ensures NoDup(PageBlocks(p, size, n))
  {
    if n > 0 {
      var last := p + (n - 1) * size;
      PageBlocksAre(p, size, n - 1);
      AddMultiple(p, size, n - 1);
      assert last + size == p + n * size;
      forall a: nat | p <= a < p + n * size && a % size == 0
        ensures a in PageBlocks(p, size, n)
      {
        if a > last {
          Multiples(last, a, size);
        } else if a < last {
          Multiples(a, last, size);
        }
      }
      NoDupCons(last, PageBlocks(p, size, n - 1));
    }
  }

  lemma NoDupCons(x: nat, list: seq<nat>)
    requires NoDup(list) && x !in list
    ensures NoDup([x] + list)
  {
  }

  lemma {:induction false} AddMultiple(p: nat, size: nat, k: nat)
    requires size > 0 && p % size == 0
    ensures (p + k * size) % size == 0
  {
    assert p == size * (p / size);
    ProductMultiple(size, p / size + k);
    assert p + k * size == size * (p / size + k);
  }

  lemma AtLeast(s: nat, k: int)
    requires k >= 1
    ensures s * k >= s
  {
  }

  lemma ProductMultiple(size: nat, q: nat)
    requires size > 0
    ensures (size * q) % size == 0
  {
    var x := size * q;
    var k := q - x / size;
    assert x == size * (x / size) + x % size && size * k == x % size;
    if k >= 1 {
      AtLeast(size, k);
    } else if k <= -1 {
      AtLeast(size, -k);
    }
  }

  /** All blocks of a page. */
  function AllBlocks(p: nat, b: nat): set<nat>
    requires b < BUCKETS
  {
    Elements(PageBlocks(p, BlockSize(b), BlockCount(b)))
  }

  function Elements(list: seq<nat>): set<nat> {
    set a | a in list
  }

  lemma AllBlocksAre(p: nat, b: nat)
    requires b < BUCKETS && p % PAGE == 0
    ensures forall a: nat :: a in AllBlocks(p, b) <==> PageOf(a) == p && a % BlockSize(b) == 0
    ensures NoDup(PageBlocks(p, BlockSize(b), BlockCount(b))) && |AllBlocks(p, b)| == BlockCount(b)
    ensures FreeSet(PageBlocks(p, BlockSize(b), BlockCount(b)), p) == AllBlocks(p, b)
  {
    hide BlockSize, BlockCount, PageBlocks, PageOf;
    var size, n := BlockSize(b), BlockCount(b);
    PageMultiple(p, b);
    PageBlocksAre(p, size, n);
    CountTimesSize(b);
    forall a: nat
      ensures a in AllBlocks(p, b) <==> PageOf(a) == p && a % size == 0
    {
      InPage(a, p);
    }
    NoDupCard(PageBlocks(p, size, n));
    PageBlocksLength(p, size, n);
    forall a | a in PageBlocks(p, size, n)
      ensures PageOf(a) == p
    {
      assert a in AllBlocks(p, b);
    }
  }

  lemma InPage(a: nat, p: nat)
    requires p % PAGE == 0
    ensures p <= a < p + PAGE <==> PageOf(a) == p
  {
  }

  lemma CountTimesSize(b: nat)
    requires b < BUCKETS
    ensures BlockCount(b) * BlockSize(b) == PAGE
  {
  }

  lemma {:induction false} PageBlocksLength(p: nat, size: nat, n: nat)
    ensures |PageBlocks(p, size, n)| == n
  {
    if n > 0 {
      PageBlocksLength(p, size, n - 1);
    }
  }

  lemma {:induction false} NoDupCard(list: seq<nat>)
    requires NoDup(list)
    ensures |Elements(list)| == |list|
  {
    if list != [] {
      NoDupCard(list[1..]);
      assert list[0] !in list[1..];
      assert Elements(list) == Elements(list[1..]) + {list[0]};
    }
  }

  /** The addresses [base, base + cap) hold no tracked page and meet no live block. */
  ghost predicate Unowned(s: State, base: nat, cap: nat) {
    && (forall q :: q in s.view ==> !(base <= q < base + cap))
    && (forall u :: u in s.live ==> Disjoint(Block(base, cap), s.live[u]))
  }

  ghost function Refilled(s: State, b: nat, p: nat): State
    requires b < BUCKETS && |s.buckets| == BUCKETS
  {
    State(s.view[p := Info(b, BlockCount(b), BlockCount(b))],
          s.buckets[b := PageBlocks(p, BlockSize(b), BlockCount(b))], s.live)
  }

  lemma RefilledLists(s: State, b: nat, p: nat)
    requires Inv(s) && b < BUCKETS && s.buckets[b] == [] && p % PAGE == 0 && Unowned(s, p, PAGE)
    ensures Lists(Refilled(s, b, p)) && Pages(Refilled(s, b, p))
  {
    hide BlockSize, PageOf, PageBlocks, Filled, Lives, Separate, BlockCount;
    var t := Refilled(s, b, p);
    AllBlocksAre(p, b);
    forall c, x | 0 <= c < BUCKETS && x in t.buckets[c]
      ensures IsBlock(t.view, x, c)
    {
      if c == b {
        assert x in AllBlocks(p, b);
      } else {
        assert IsBlock(s.view, x, c);
      }
    }
    forall q | q in s.view && q != p
      ensures FreeSet(t.buckets[s.view[q].bucket], q) == FreeSet(s.buckets[s.view[q].bucket], q)
    {
      if s.view[q].bucket == b {
        assert forall x :: x in t.buckets[b] ==> x in AllBlocks(p, b);
      }
    }
  }

  lemma RefilledKeeps(s: State, b: nat, p: nat)
    requires Inv(s) && b < BUCKETS && s.buckets[b] == [] && p % PAGE == 0 && Unowned(s, p, PAGE)
    ensures Inv(Refilled(s, b, p)) && Refilled(s, b, p).buckets[b] != []
  {
    hide BlockSize, PageOf, PageBlocks, BlockCount, FreeSet;
    var t := Refilled(s, b, p);
    RefilledLists(s, b, p);
    AllBlocksAre(p, b);
    forall x: nat, c | 0 <= c < BUCKETS && IsBlock(t.view, x, c)
      ensures x in t.buckets[c] || x in Bases(t.live)
    {
      if PageOf(x) == p {
        assert x in AllBlocks(p, b);
      } else {
        assert IsBlock(s.view, x, c);
      }
    }
    forall u | u in s.live
      ensures LiveBlock(t, s.live[u])
    {
      assert LiveBlock(s, s.live[u]);
      assert s.live[u].base in t.buckets[b] ==> s.live[u].base in AllBlocks(p, b);
    }
    NotEmpty(p, b);
  }

  lemma NotEmpty(p: nat, b: nat)
    requires b < BUCKETS
    ensures PageBlocks(p, BlockSize(b), BlockCount(b)) != []
  {
  }

  // Giving a block back.

  /** The bucket of a small live block. */
  function BucketOf(s: State, u: nat): nat {
    if u in s.live && PageOf(s.live[u].base) in s.view then s.view[PageOf(s.live[u].base)].bucket else 0
  }

  ghost predicate SmallLive(s: State, u: nat) {
    u in s.live && s.live[u].cap <= PAGE
  }

  ghost function Pushed(s: State, u: nat): State
    requires Inv(s) && SmallLive(s, u)
  {
    var h, b := s.live[u].base, BucketOf(s, u);
    assert LiveBlock(s, s.live[u]);
    State(WithFree(s.view, PageOf(h), s.view[PageOf(h)].free + 1), s.buckets[b := [h] + s.buckets[b]], s.live - {u})
  }

  /** A live block is a block of its bucket, and nobody else has its address. */
  lemma SmallLiveBlock(s: State, u: nat)
    requires Inv(s) && SmallLive(s, u)
    ensures BucketOf(s, u) < BUCKETS && s.live[u].cap == BlockSize(BucketOf(s, u))
    ensures IsBlock(s.view, s.live[u].base, BucketOf(s, u))
    ensures s.live[u].base !in s.buckets[BucketOf(s, u)]
    ensures Bases(s.live - {u}) == Bases(s.live) - {s.live[u].base}
  {
    hide BlockSize, PageOf, Lists, Pages, Filled;
    assert LiveBlock(s, s.live[u]);
    BasesDrop(s, u);
  }

  lemma BasesDrop(s: State, u: nat)
    requires |s.buckets| == BUCKETS && Lives(s) && Separate(s.live) && u in s.live
    ensures Bases(s.live - {u}) == Bases(s.live) - {s.live[u].base}
  {
    hide BlockSize, PageOf, LiveBlock;
    var x, y := Bases(s.live - {u}), Bases(s.live) - {s.live[u].base};
    forall a | a in x
      ensures a in y
    {
      var v :| v in s.live - {u} && s.live[v].base == a;
      assert v in s.live && Disjoint(s.live[u], s.live[v]);
      assert a in Bases(s.live);
    }
    forall a | a in y
      ensures a in x
    {
      var v :| v in s.live && s.live[v].base == a;
      assert v in s.live - {u};
    }
  }

  lemma FreeSetCons(h: nat, list: seq<nat>, p: nat)
    requires h !in list
    ensures PageOf(h) == p ==> |FreeSet([h] + list, p)| == |FreeSet(list, p)| + 1
    ensures PageOf(h) != p ==> FreeSet([h] + list, p) == FreeSet(list, p)
  {
    hide PageOf;
    var f, g := FreeSet([h] + list, p), FreeSet(list, p);
    if PageOf(h) == p {
      assert f == g + {h};
    } else {
      assert f == g;
    }
  }

  lemma PushedLists(s: State, u: nat)
    requires Inv(s) && SmallLive(s, u)
    ensures Lists(Pushed(s, u)) && Pages(Pushed(s, u))
  {
    hide BlockSize, PageOf, FreeSet, Filled, Lives, Separate, Bases;
    var h, b, t := s.live[u].base, BucketOf(s, u), Pushed(s, u);
    SmallLiveBlock(s, u);
    NoDupCons(h, s.buckets[b]);
    forall p | p in t.view
      ensures t.view[p].free == |FreeSet(t.buckets[t.view[p].bucket], p)|
    {
      if t.view[p].bucket == b {
        FreeSetCons(h, s.buckets[b], p);
      }
    }
    forall c, x | 0 <= c < BUCKETS && x in t.buckets[c]
      ensures IsBlock(t.view, x, c)
    {
      assert x == h || x in s.buckets[c];
    }
  }

  lemma PushedKeeps(s: State, u: nat)
    requires Inv(s) && SmallLive(s, u)
    ensures Inv(Pushed(s, u))
  {
    hide BlockSize, PageOf, FreeSet, Bases, NoDup, Lists, Pages, Lives, Separate;
    var h, b, t := s.live[u].base, BucketOf(s, u), Pushed(s, u);
    PushedLists(s, u);
    PushedLives(s, u);
    SmallLiveBlock(s, u);
    forall x: nat, c | 0 <= c < BUCKETS && IsBlock(t.view, x, c)
      ensures x in t.buckets[c] || x in Bases(t.live)
    {
      assert IsBlock(s.view, x, c);
    }
  }

  lemma PushedLives(s: State, u: nat)
    requires Inv(s) && SmallLive(s, u)
    ensures |Pushed(s, u).buckets| == BUCKETS && Lives(Pushed(s, u)) && Separate(Pushed(s, u).live)
  {
    hide BlockSize, PageOf, FreeSet, Bases, NoDup, Lists, Pages, Filled, LiveBlock;
    var t := Pushed(s, u);
    SmallLiveBlock(s, u);
    forall v | v in t.live
      ensures LiveBlock(t, t.live[v])
    {
      assert Disjoint(s.live[u], s.live[v]);
      PushedLiveBlock(s, u, s.live[v]);
    }
  }

  lemma PushedLiveBlock(s: State, u: nat, x: Block)
    requires Inv(s) && SmallLive(s, u) && LiveBlock(s, x) && Disjoint(s.live[u], x)
    ensures LiveBlock(Pushed(s, u), x)
  {
    hide PageOf, FreeSet, Bases, NoDup, Lists, Pages, Filled, Separate;
    SmallLiveBlock(s, u);
  }

  /** The blocks of a list outside a page: bucket_remove_page_blocks. */
  function Outside(list: seq<nat>, p: nat): seq<nat> {
    if list == [] then []
    else
      var rest, last := Outside(list[..|list| - 1], p), list[|list| - 1];
      if last < p || last >= p + PAGE then rest + [last] else rest
  }

  lemma {:induction false} OutsideIs(list: seq<nat>, p: nat)
    requires p % PAGE == 0
    ensures forall a :: a in Outside(list, p) <==> a in list && PageOf(a) != p
    ensures NoDup(list) ==> NoDup(Outside(list, p))
  {
    if list != [] {
      var n := |list| - 1;
      OutsideIs(list[..n], p);
      assert list == list[..n] + [list[n]];
      InPage(list[n], p);
    }
  }

  ghost function Dropped(s: State, u: nat): State
    requires Inv(s) && SmallLive(s, u)
  {
    var b, p := BucketOf(s, u), PageOf(s.live[u].base);
    assert LiveBlock(s, s.live[u]);
    State(s.view - {p}, s.buckets[b := Outside(s.buckets[b], p)], s.live - {u})
  }

  lemma SubsetCard(x: set<nat>, y: set<nat>)
    requires x <= y
    ensures |x| <= |y| && (|x| == |y| ==> x == y)
  {
    assert y == x + (y - x);
  }

  /** Some other live block is in the page. */
  ghost predicate OthersIn(s: State, u: nat, p: nat) {
    exists v :: v in s.live && v != u && PageOf(s.live[v].base) == p
  }

  /** The count of free blocks reaches the total exactly when the last live block of the page is freed. */
  lemma LastBlock(s: State, u: nat)
    requires Inv(s) && SmallLive(s, u)
    ensures var p := PageOf(s.live[u].base);
            p in s.view && (s.view[p].free + 1 == s.view[p].total <==> !OthersIn(s, u, p))
  {
    hide BlockSize, PageOf, NoDup, BlockCount, Bases, FreeSet, AllBlocks, Lists, Filled, Separate, OthersIn;
    var h, b, p := s.live[u].base, BucketOf(s, u), PageOf(s.live[u].base);
    SmallLiveBlock(s, u);
    AllBlocksAre(p, b);
    ListedInPage(s, u);
    SubsetCard(FreeSet(s.buckets[b], p) + {h}, AllBlocks(p, b));
    if OthersIn(s, u, p) {
      OtherBlock(s, u);
    } else {
      NoOtherBlock(s, u);
    }
  }

  lemma ListedInPage(s: State, u: nat)
    requires Inv(s) && SmallLive(s, u)
    ensures var b, p := BucketOf(s, u), PageOf(s.live[u].base);
            b < BUCKETS && p % PAGE == 0 && FreeSet(s.buckets[b], p) + {s.live[u].base} <= AllBlocks(p, b) &&
            s.live[u].base !in FreeSet(s.buckets[b], p)
  {
    hide BlockSize, PageOf, NoDup, BlockCount, Bases, AllBlocks, Filled, Separate, Lives;
    SmallLiveBlock(s, u);
    AllBlocksAre(PageOf(s.live[u].base), BucketOf(s, u));
  }

  lemma OtherBlock(s: State, u: nat)
    requires Inv(s) && SmallLive(s, u) && OthersIn(s, u, PageOf(s.live[u].base))
    ensures var b, p := BucketOf(s, u), PageOf(s.live[u].base);
            b < BUCKETS && FreeSet(s.buckets[b], p) + {s.live[u].base} != AllBlocks(p, b)
  {
    hide BlockSize, NoDup, BlockCount, Bases, AllBlocks, Filled, Lists;
    var b, p := BucketOf(s, u), PageOf(s.live[u].base);
    SmallLiveBlock(s, u);
    var v :| v in s.live && v != u && PageOf(s.live[v].base) == p;
    assert Disjoint(s.live[u], s.live[v]) && LiveBlock(s, s.live[v]);
    AllBlocksAre(p, b);
    assert s.live[v].base in AllBlocks(p, b);
  }

  lemma NoOtherBlock(s: State, u: nat)
    requires Inv(s) && SmallLive(s, u) && !OthersIn(s, u, PageOf(s.live[u].base))
    ensures var b, p := BucketOf(s, u), PageOf(s.live[u].base);
            b < BUCKETS && FreeSet(s.buckets[b], p) + {s.live[u].base} == AllBlocks(p, b)
  {
    hide BlockSize, PageOf, NoDup, BlockCount, AllBlocks, Lists, Lives, Separate;
    var b, p := BucketOf(s, u), PageOf(s.live[u].base);
    SmallLiveBlock(s, u);
    AllBlocksAre(p, b);
    ListedInPage(s, u);
    forall a | a in AllBlocks(p, b)
      ensures a in FreeSet(s.buckets[b], p) + {s.live[u].base}
    {
      assert IsBlock(s.view, a, b);
    }
  }

  lemma DroppedLists(s: State, u: nat)
    requires Inv(s) && SmallLive(s, u)
    ensures Lists(Dropped(s, u)) && Pages(Dropped(s, u))
  {
    hide BlockSize, PageOf, Filled, Lives, Separate, Bases, NoDup, Outside;
    var b, p, t := BucketOf(s, u), PageOf(s.live[u].base), Dropped(s, u);
    SmallLiveBlock(s, u);
    OutsideIs(s.buckets[b], p);
    forall q | q in t.view
      ensures FreeSet(t.buckets[t.view[q].bucket], q) == FreeSet(s.buckets[s.view[q].bucket], q)
    {
    }
    forall c, x | 0 <= c < BUCKETS && x in t.buckets[c]
      ensures IsBlock(t.view, x, c)
    {
      assert x in s.buckets[c] && IsBlock(s.view, x, c);
    }
  }

  lemma DroppedKeeps(s: State, u: nat)
    requires Inv(s) && SmallLive(s, u) && !OthersIn(s, u, PageOf(s.live[u].base))
    ensures Inv(Dropped(s, u)) && Unowned(Dropped(s, u), PageOf(s.live[u].base), PAGE)
  {
    hide BlockSize, FreeSet, Bases, NoDup, Outside, BlockCount;
    var b, p, t := BucketOf(s, u), PageOf(s.live[u].base), Dropped(s, u);
    DroppedLists(s, u);
    SmallLiveBlock(s, u);
    OutsideIs(s.buckets[b], p);
    DroppedLives(s, u);
    forall x: nat, c | 0 <= c < BUCKETS && IsBlock(t.view, x, c)
      ensures x in t.buckets[c] || x in Bases(t.live)
    {
      assert IsBlock(s.view, x, c);
    }
  }

  lemma DroppedLives(s: State, u: nat)
    requires Inv(s) && SmallLive(s, u) && !OthersIn(s, u, PageOf(s.live[u].base))
    ensures |Dropped(s, u).buckets| == BUCKETS && Lives(Dropped(s, u)) && Separate(Dropped(s, u).live)
    ensures Unowned(Dropped(s, u), PageOf(s.live[u].base), PAGE)
  {
    hide BlockSize, FreeSet, Bases, NoDup, Outside, BlockCount, Filled, Pages, Lists, PageOf, LiveBlock;
    var b, p, t := BucketOf(s, u), PageOf(s.live[u].base), Dropped(s, u);
    SmallLiveBlock(s, u);
    forall v | v in t.live
      ensures LiveBlock(t, t.live[v]) && Disjoint(Block(p, PAGE), t.live[v])
    {
      OtherPage(s, u, v);
    }
    forall q | q in t.view
      ensures !(p <= q < p + PAGE)
    {
      PagesApart(s, p, q);
    }
  }

  lemma PagesApart(s: State, p: nat, q: nat)
    requires Inv(s) && p in s.view && q in s.view && p != q
    ensures !(p <= q < p + PAGE)
  {
    hide BlockSize, FreeSet, NoDup, BlockCount, Filled, Lists, Lives, Separate;
  }

  lemma OtherPage(s: State, u: nat, v: nat)
    requires Inv(s) && SmallLive(s, u) && !OthersIn(s, u, PageOf(s.live[u].base)) && v in s.live && v != u
    ensures LiveBlock(Dropped(s, u), s.live[v]) && Disjoint(Block(PageOf(s.live[u].base), PAGE), s.live[v])
  {
    hide BlockSize, FreeSet, Bases, NoDup, Outside, BlockCount, Filled, Lists, Separate;
    var b, p, x := BucketOf(s, u), PageOf(s.live[u].base), s.live[v];
    SmallLiveBlock(s, u);
    OutsideIs(s.buckets[b], p);
    assert LiveBlock(s, x) && PageOf(x.base) != p;
    if x.cap <= PAGE {
      var q := PageOf(x.base);
      BlockInPage(x.base, s.view[q].bucket);
      if p < q {
        Multiples(p, q, PAGE);
      } else {
        Multiples(q, p, PAGE);
      }
    } else if x.base > p {
      Multiples(p, x.base, PAGE);
    } else {
      RunEnd(x.base, x.cap, p);
    }
  }

  // Runs of pages, and pointers moved inside their block.

  lemma SameLists(s: State, t: State)
    requires |s.buckets| == BUCKETS && Lists(s) && Pages(s) && t.view == s.view && t.buckets == s.buckets
    ensures Lists(t) && Pages(t)
  {
    hide BlockSize, NoDup, FreeSet, BlockCount, PageOf;
  }

  lemma SameLiveBlock(s: State, t: State, x: Block)
    requires |s.buckets| == BUCKETS && t.view == s.view && t.buckets == s.buckets
    ensures LiveBlock(s, x) == LiveBlock(t, x)
  {
  }

  lemma LargeIsLive(s: State, t: State, base: nat, cap: nat)
    requires |t.buckets| == BUCKETS && t.view == s.view
    requires base % PAGE == 0 && cap % PAGE == 0 && cap > PAGE && Unowned(s, base, cap)
    ensures LiveBlock(t, Block(base, cap))
  {
  }

  lemma LargeKeeps(s: State, base: nat, cap: nat)
    requires Inv(s) && base % PAGE == 0 && cap % PAGE == 0 && cap > PAGE && Unowned(s, base, cap)
    ensures base + HEADER !in s.live && Inv(s.(live := s.live[base + HEADER := Block(base, cap)]))
  {
    hide BlockSize, NoDup, FreeSet, BlockCount, Filled, Lists, Pages, LiveBlock;
    var x := Block(base, cap);
    var t := s.(live := s.live[base + HEADER := x]);
    LargeIsLive(s, t, base, cap);
    forall u | u in s.live
      ensures u != base + HEADER && LiveBlock(t, s.live[u])
    {
      assert Disjoint(x, s.live[u]);
      SameLiveBlock(s, t, s.live[u]);
    }
    FilledMore(s, base + HEADER, x);
    SameLists(s, t);
  }

  lemma FilledMore(s: State, u: nat, x: Block)
    requires |s.buckets| == BUCKETS && Filled(s) && u !in s.live
    ensures Filled(s.(live := s.live[u := x]))
  {
    hide BlockSize, PageOf;
    var t := s.(live := s.live[u := x]);
    forall a: nat, b | 0 <= b < BUCKETS && IsBlock(t.view, a, b)
      ensures a in t.buckets[b] || a in Bases(t.live)
    {
      assert IsBlock(s.view, a, b);
      if a in Bases(s.live) {
        var v :| v in s.live && s.live[v].base == a;
        assert t.live[v].base == a;
      }
    }
  }

  lemma LargeFreed(s: State, u: nat)
    requires Inv(s) && u in s.live && s.live[u].cap > PAGE
    ensures Inv(s.(live := s.live - {u}))
    ensures Unowned(s.(live := s.live - {u}), s.live[u].base, s.live[u].cap)
  {
    hide BlockSize, NoDup, FreeSet, BlockCount, Lists, Bases, Pages;
    var t := s.(live := s.live - {u});
    SameLists(s, t);
    BasesDrop(s, u);
    assert LiveBlock(s, s.live[u]);
    forall a: nat, b | 0 <= b < BUCKETS && IsBlock(t.view, a, b)
      ensures a in t.buckets[b] || a in Bases(t.live)
    {
      assert IsBlock(s.view, a, b);
      BlockNotLarge(s, a, b, u);
    }
    forall v | v in t.live
      ensures LiveBlock(t, t.live[v])
    {
      assert LiveBlock(s, s.live[v]);
    }
  }

  lemma BlockNotLarge(s: State, a: nat, b: nat, u: nat)
    requires Inv(s) && b < BUCKETS && IsBlock(s.view, a, b) && u in s.live && s.live[u].cap > PAGE
    ensures a != s.live[u].base
  {
    assert LiveBlock(s, s.live[u]);
  }

  /** aligned_alloc moves the pointer inside its block. */
  lemma Rekeyed(s: State, u: nat, w: nat)
    requires Inv(s) && u in s.live && s.live[u].base + HEADER <= w <= s.live[u].base + s.live[u].cap
    ensures w != u ==> w !in s.live
    ensures Inv(s.(live := (s.live - {u})[w := s.live[u]]))
  {
    hide BlockSize, NoDup, FreeSet, BlockCount, Lists, PageOf, Pages, LiveBlock, Filled;
    var x := s.live[u];
    var t := s.(live := (s.live - {u})[w := x]);
    SameLists(s, t);
    forall v | v in s.live && v != u
      ensures v != w
    {
      assert Disjoint(x, s.live[v]);
    }
    forall v | v in t.live
      ensures LiveBlock(t, t.live[v])
    {
      SameLiveBlock(s, t, t.live[v]);
    }
    RekeyedFilled(s, u, w);
  }

  lemma RekeyedFilled(s: State, u: nat, w: nat)
    requires |s.buckets| == BUCKETS && Filled(s) && u in s.live && (w != u ==> w !in s.live)
    ensures Filled(s.(live := (s.live - {u})[w := s.live[u]]))
  {
    hide BlockSize, PageOf;
    var t := s.(live := (s.live - {u})[w := s.live[u]]);
    forall a: nat, b | 0 <= b < BUCKETS && IsBlock(t.view, a, b)
      ensures a in t.buckets[b] || a in Bases(t.live)
    {
      assert IsBlock(s.view, a, b);
      if a in Bases(s.live) {
        var v :| v in s.live && s.live[v].base == a;
        assert t.live[if v == u then w else v].base == a;
      }
    }
  }
}
