/** Dirty rectangles of the window manager: clipping, merging and queueing them without losing damage. */
module Damage {
  import opened Options

  const INT_MIN: int := -0x8000_0000
  const INT_MAX: int := 0x7FFF_FFFF
  const U64: nat := 0x1_0000_0000_0000_0000

  /** DirtyRect; the four numbers are 32-bit. */
  datatype Rect = Rect(x: int, y: int, w: int, h: int) {
    function Right(): int { x + w }
    function Bottom(): int { y + h }
    predicate Has(px: int, py: int) { x <= px < x + w && y <= py < y + h }
  }

  function Clamp(v: int): int {
    if v < INT_MIN then INT_MIN else if v > INT_MAX then INT_MAX else v
  }

  function Min(a: int, b: int): int { if a < b then a else b }

  function Max(a: int, b: int): int { if a > b then a else b }

  /** rect_touch_or_overlap. */
  predicate Touch(a: Rect, b: Rect) {
    && a.w > 0 && a.h > 0 && b.w > 0 && b.h > 0
    && !(a.Right() < b.x || b.Right() < a.x || a.Bottom() < b.y || b.Bottom() < a.y)
  }

  /** Rectangles touch if they are not empty and have a point in common, their edges included. */
  lemma TouchMeans(a: Rect, b: Rect)
    ensures Touch(a, b) <==>
              && a.w > 0 && a.h > 0 && b.w > 0 && b.h > 0
              && exists u, v :: Edged(a, u, v) && Edged(b, u, v)
  {
    if Touch(a, b) {
      var u, v := Max(a.x, b.x), Max(a.y, b.y);
      assert Edged(a, u, v) && Edged(b, u, v);
    }
  }

  /** The point lies in the rectangle or on its edge. */
  predicate Edged(r: Rect, u: int, v: int) {
    r.x <= u <= r.x + r.w && r.y <= v <= r.y + r.h
  }

  /** rect_union: the bounding box. */
  function Union(a: Rect, b: Rect): Rect {
    var x1, y1 := Min(a.x, b.x), Min(a.y, b.y);
    var x2, y2 := Max(a.Right(), b.Right()), Max(a.Bottom(), b.Bottom());
    Rect(Clamp(x1), Clamp(y1), Clamp(x2 - x1), Clamp(y2 - y1))
  }

  /** A nonempty rectangle inside the screen. */
  predicate OnScreen(r: Rect, sw: int, sh: int) {
    0 <= r.x && 0 <= r.y && 0 < r.w && 0 < r.h && r.Right() <= sw <= INT_MAX && r.Bottom() <= sh <= INT_MAX
  }

  /** The first rectangle reaches beyond no edge of the second. */
  predicate Inside(a: Rect, b: Rect) {
    b.x <= a.x && b.y <= a.y && a.Right() <= b.Right() && a.Bottom() <= b.Bottom()
  }

  lemma UnionIs(a: Rect, b: Rect, sw: int, sh: int)
    requires OnScreen(a, sw, sh) && OnScreen(b, sw, sh)
    ensures OnScreen(Union(a, b), sw, sh)
    ensures forall px, py :: a.Has(px, py) || b.Has(px, py) ==> Union(a, b).Has(px, py)
    ensures var u := Union(a, b);
            && u.x == Min(a.x, b.x) && u.y == Min(a.y, b.y)
            && u.Right() == Max(a.Right(), b.Right()) && u.Bottom() == Max(a.Bottom(), b.Bottom())
  {
  }

  /** clip_rect_to_screen: None when nothing is left. */
  function Clip(r: Rect, sw: int, sh: int): (c: Option<Rect>)
    requires sw <= INT_MAX && sh <= INT_MAX
    ensures c.Some? ==> OnScreen(c.value, sw, sh) && Inside(c.value, r)
    ensures forall px, py :: (c.Some? && c.value.Has(px, py)) <==> (r.Has(px, py) && 0 <= px < sw && 0 <= py < sh)
  {
    if sw <= 0 || sh <= 0 || r.w <= 0 || r.h <= 0 then None
    else
      var x1, y1, x2, y2 := Max(r.x, 0), Max(r.y, 0), Min(r.Right(), sw), Min(r.Bottom(), sh);
      if x2 <= x1 || y2 <= y1 then ClipEmpty(r, sw, sh); None
      else Some(Rect(Clamp(x1), Clamp(y1), Clamp(x2 - x1), Clamp(y2 - y1)))
  }

  lemma ClipEmpty(r: Rect, sw: int, sh: int)
    requires Min(r.Right(), sw) <= Max(r.x, 0) || Min(r.Bottom(), sh) <= Max(r.y, 0)
    ensures forall px, py :: !(r.Has(px, py) && 0 <= px < sw && 0 <= py < sh)
  {
  }

  /** Some rectangle has the pixel. */
  ghost predicate Covered(s: seq<Rect>, px: int, py: int) {
    exists i :: 0 <= i < |s| && s[i].Has(px, py)
  }

  /** The rectangle lies in the bounding box of the others. */
  ghost predicate Framed(s: seq<Rect>, r: Rect) {
    && (exists i :: 0 <= i < |s| && s[i].x <= r.x)
    && (exists i :: 0 <= i < |s| && s[i].y <= r.y)
    && (exists i :: 0 <= i < |s| && r.Right() <= s[i].Right())
    && (exists i :: 0 <= i < |s| && r.Bottom() <= s[i].Bottom())
  }

  ghost predicate Tight(s: seq<Rect>, t: seq<Rect>) {
    forall k :: 0 <= k < |t| ==> Framed(s, t[k])
  }

  /** Every pixel of the screen covered by the first is covered by the second, which stays in the
      bounding box of the first. */
  ghost predicate Keeps(s: seq<Rect>, t: seq<Rect>, sw: int, sh: int) {
    && (forall px, py :: 0 <= px < sw && 0 <= py < sh && Covered(s, px, py) ==> Covered(t, px, py))
    && Tight(s, t)
  }

  lemma FramedIn(s: seq<Rect>, i: nat, r: Rect)
    requires i < |s| && Inside(r, s[i])
    ensures Framed(s, r)
  {
  }

  lemma FramedUnion(s: seq<Rect>, a: Rect, b: Rect, sw: int, sh: int)
    requires Framed(s, a) && Framed(s, b) && OnScreen(a, sw, sh) && OnScreen(b, sw, sh)
    ensures Framed(s, Union(a, b))
  {
    hide Union, OnScreen;
    UnionIs(a, b, sw, sh);
  }

  lemma FramedTrans(a: seq<Rect>, b: seq<Rect>, r: Rect)
    requires Tight(a, b) && Framed(b, r)
    ensures Framed(a, r)
  {
    var i :| 0 <= i < |b| && b[i].x <= r.x;
    var j :| 0 <= j < |b| && b[j].y <= r.y;
    var k :| 0 <= k < |b| && r.Right() <= b[k].Right();
    var l :| 0 <= l < |b| && r.Bottom() <= b[l].Bottom();
    assert Framed(a, b[i]) && Framed(a, b[j]) && Framed(a, b[k]) && Framed(a, b[l]);
  }

  lemma TightTrans(a: seq<Rect>, b: seq<Rect>, c: seq<Rect>)
    requires Tight(a, b) && Tight(b, c)
    ensures Tight(a, c)
  {
    hide Framed;
    forall k | 0 <= k < |c|
      ensures Framed(a, c[k])
    {
      FramedTrans(a, b, c[k]);
    }
  }

  ghost predicate AllOn(s: seq<Rect>, sw: int, sh: int) {
    forall i :: 0 <= i < |s| ==> OnScreen(s[i], sw, sh)
  }

  ghost predicate Apart(s: seq<Rect>) {
    forall i, j :: 0 <= i < j < |s| ==> !Touch(s[i], s[j])
  }

  lemma KeepsSelf(s: seq<Rect>, sw: int, sh: int)
    ensures Keeps(s, s, sw, sh)
  {
    forall k | 0 <= k < |s|
      ensures Framed(s, s[k])
    {
      FramedIn(s, k, s[k]);
    }
  }

  lemma KeepsTrans(a: seq<Rect>, b: seq<Rect>, c: seq<Rect>, sw: int, sh: int)
    requires Keeps(a, b, sw, sh) && Keeps(b, c, sw, sh)
    ensures Keeps(a, c, sw, sh)
  {
    hide Covered, Tight;
    TightTrans(a, b, c);
  }

  /** The last rectangle takes place j. */
  function Removed(s: seq<Rect>, j: nat): seq<Rect>
    requires j < |s|
  {
    s[j := s[|s| - 1]][..|s| - 1]
  }

  /** Rectangles i and j become one. */
  function Merged(s: seq<Rect>, i: nat, j: nat): seq<Rect>
    requires i < j < |s|
  {
    Removed(s[i := Union(s[i], s[j])], j)
  }

  lemma MergedKeeps(s: seq<Rect>, i: nat, j: nat, sw: int, sh: int)
    requires i < j < |s| && AllOn(s, sw, sh)
    ensures AllOn(Merged(s, i, j), sw, sh) && Keeps(s, Merged(s, i, j), sw, sh)
  {
    hide Union, OnScreen;
    UnionIs(s[i], s[j], sw, sh);
    var t := Merged(s, i, j);
    forall px, py | 0 <= px < sw && 0 <= py < sh && Covered(s, px, py)
      ensures Covered(t, px, py)
    {
      var k :| 0 <= k < |s| && s[k].Has(px, py);
      var m := if k == j then i else if k == |s| - 1 then j else k;
      assert t[m].Has(px, py);
    }
    MergedTight(s, i, j, sw, sh);
  }

  lemma MergedTight(s: seq<Rect>, i: nat, j: nat, sw: int, sh: int)
    requires i < j < |s| && AllOn(s, sw, sh)
    ensures Tight(s, Merged(s, i, j))
  {
    hide Union, OnScreen, Framed;
    var t := Merged(s, i, j);
    FramedIn(s, i, s[i]);
    FramedIn(s, j, s[j]);
    FramedUnion(s, s[i], s[j], sw, sh);
    forall k | 0 <= k < |t|
      ensures Framed(s, t[k])
    {
      if k != i {
        FramedIn(s, if k == j then |s| - 1 else k, t[k]);
      }
    }
  }

  /** One rectangle is clipped in place. */
  lemma ClippedKeeps(s: seq<Rect>, i: nat, sw: int, sh: int)
    requires i < |s| && sw <= INT_MAX && sh <= INT_MAX
    ensures var c := Clip(s[i], sw, sh);
            Keeps(s, if c.Some? then s[i := c.value] else Removed(s, i), sw, sh)
  {
    hide Clip, Framed;
    var c := Clip(s[i], sw, sh);
    var t := if c.Some? then s[i := c.value] else Removed(s, i);
    forall px, py | 0 <= px < sw && 0 <= py < sh && Covered(s, px, py)
      ensures Covered(t, px, py)
    {
      var k :| 0 <= k < |s| && s[k].Has(px, py);
      var m := if c.None? && k == |s| - 1 then i else k;
      assert k == i ==> c.Some?;
      assert t[m].Has(px, py);
    }
    forall k | 0 <= k < |t|
      ensures Framed(s, t[k])
    {
      FramedIn(s, if c.None? && k == i then |s| - 1 else k, t[k]);
    }
  }

  /** What is left of the rectangles on the screen. */
  function Clipped(s: seq<Rect>, sw: int, sh: int): (t: seq<Rect>)
    requires sw <= INT_MAX && sh <= INT_MAX
    ensures |t| <= |s|
  {
    if s == [] then []
    else
      var c := Clip(s[|s| - 1], sw, sh);
      Clipped(s[..|s| - 1], sw, sh) + if c.Some? then [c.value] else []
  }

  lemma {:induction false} ClippedOne(s: seq<Rect>, i: nat, r: Rect, sw: int, sh: int)
    requires i < |s| && sw <= INT_MAX && sh <= INT_MAX && Clip(r, sw, sh) == Clip(s[i], sw, sh)
    ensures Clipped(s[i := r], sw, sh) == Clipped(s, sw, sh)
    decreases |s|
  {
    hide Clip;
    var n := |s| - 1;
    if i < n {
      assert s[i := r][..n] == s[..n][i := r];
      ClippedOne(s[..n], i, r, sw, sh);
    } else {
      assert s[i := r][..n] == s[..n];
    }
  }

  /** A rectangle that is off the screen can go, whatever takes its place. */
  lemma ClippedRemoved(s: seq<Rect>, i: nat, sw: int, sh: int)
    requires i < |s| && sw <= INT_MAX && sh <= INT_MAX && Clip(s[i], sw, sh).None?
    ensures multiset(Clipped(Removed(s, i), sw, sh)) == multiset(Clipped(s, sw, sh))
  {
    hide Clip;
    var n := |s| - 1;
    if i < n {
      var x := s[..n];
      assert Removed(s, i) == x[i := s[n]];
      ClippedMoved(x, i, s[n], sw, sh);
    } else {
      assert Removed(s, i) == s[..n];
    }
  }

  lemma {:induction false} ClippedMoved(x: seq<Rect>, i: nat, r: Rect, sw: int, sh: int)
    requires i < |x| && sw <= INT_MAX && sh <= INT_MAX && Clip(x[i], sw, sh).None?
    ensures var c := Clip(r, sw, sh);
            multiset(Clipped(x[i := r], sw, sh)) ==
            multiset(Clipped(x, sw, sh)) + multiset(if c.Some? then [c.value] else [])
    decreases |x|
  {
    hide Clip;
    var n := |x| - 1;
    if i < n {
      assert x[i := r][..n] == x[..n][i := r];
      ClippedMoved(x[..n], i, r, sw, sh);
    } else {
      assert x[i := r][..n] == x[..n];
    }
  }

  lemma {:induction false} ClippedDone(s: seq<Rect>, sw: int, sh: int)
    requires AllOn(s, sw, sh) && sw <= INT_MAX && sh <= INT_MAX
    ensures Clipped(s, sw, sh) == s
  {
    if s != [] {
      ClippedDone(s[..|s| - 1], sw, sh);
    }
  }

  lemma ClipTwice(r: Rect, c: Rect, sw: int, sh: int)
    requires sw <= INT_MAX && sh <= INT_MAX && Clip(r, sw, sh) == Some(c)
    ensures Clip(c, sw, sh) == Some(c)
  {
  }

  // ---------- Which rectangles come out ----------

  /** The two reasons to merge a pair. */
  datatype Reason = Touching | Saving

  predicate Fit(why: Reason, x: Rect, y: Rect) {
    match why
    case Touching => Touch(x, y)
    case Saving => Worth(x, Area(x), y)
  }

  /** One pair is replaced by its bounding box. */
  ghost predicate Joins(why: Reason, a: multiset<Rect>, b: multiset<Rect>) {
    exists x, y :: Fit(why, x, y) && multiset{x, y} <= a && b == a - multiset{x, y} + multiset{Union(x, y)}
  }

  /** The second comes from the first by n such steps. */
  ghost predicate Joined(why: Reason, a: multiset<Rect>, b: multiset<Rect>, n: nat)
    decreases n
  {
    if n == 0 then b == a
    else
      var m := n - 1;
      exists c :: Joined(why, a, c, m) && Joins(why, c, b)
  }

  lemma JoinedOne(why: Reason, a: multiset<Rect>, b: multiset<Rect>, n: nat, c: multiset<Rect>)
    requires Joined(why, a, b, n) && Joins(why, b, c)
    ensures Joined(why, a, c, n + 1)
  {
    hide Joins;
  }

  lemma {:induction false} JoinedTrans(why: Reason, a: multiset<Rect>, b: multiset<Rect>, m: nat, c: multiset<Rect>,
                                       n: nat)
    requires Joined(why, a, b, m) && Joined(why, b, c, n)
    ensures Joined(why, a, c, m + n)
    decreases n
  {
    hide Joins;
    if n > 0 {
      var k := n - 1;
      var d :| Joined(why, b, d, k) && Joins(why, d, c);
      JoinedTrans(why, a, b, m, d, n - 1);
      JoinedOne(why, a, d, m + n - 1, c);
    }
  }

  lemma RemovedBag(s: seq<Rect>, j: nat)
    requires j < |s|
    ensures multiset(Removed(s, j)) == multiset(s) - multiset{s[j]}
  {
    var n := |s| - 1;
    assert s == s[..n] + [s[n]];
    if j < n {
      assert Removed(s, j) == s[..n][j := s[n]];
      assert multiset(s[..n][j := s[n]]) == multiset(s[..n]) - multiset{s[j]} + multiset{s[n]};
    } else {
      assert Removed(s, j) == s[..n];
    }
  }

  lemma PairIn(s: seq<Rect>, i: nat, j: nat)
    requires i < j < |s|
    ensures multiset{s[i], s[j]} <= multiset(s)
  {
    assert s == s[..j] + [s[j]] + s[j + 1..];
    assert s[i] == s[..j][i];
  }

  lemma MergedJoins(why: Reason, s: seq<Rect>, i: nat, j: nat)
    requires i < j < |s| && Fit(why, s[i], s[j])
    ensures Joins(why, multiset(s), multiset(Merged(s, i, j)))
  {
    hide Fit, Removed, Union;
    var x, y := s[i], s[j];
    PairIn(s, i, j);
    var t := s[i := Union(x, y)];
    assert multiset(t) == multiset(s) - multiset{x} + multiset{Union(x, y)};
    RemovedBag(t, j);
    assert multiset(Merged(s, i, j)) == multiset(s) - multiset{x, y} + multiset{Union(x, y)};
  }

  /** The clipping loop of normalize_dirty_rects. */
  method ClipAll(rects: array<Rect>, count: nat, sw: int, sh: int) returns (count': nat)
    requires count <= rects.Length && sw <= INT_MAX && sh <= INT_MAX
    modifies rects
    ensures count' <= count && AllOn(rects[..count'], sw, sh) && Keeps(old(rects[..count]), rects[..count'], sw, sh)
    ensures multiset(rects[..count']) == multiset(Clipped(old(rects[..count]), sw, sh))
  {
    hide Clip, OnScreen, Keeps, Removed, Clipped;
    count' := count;
    KeepsSelf(rects[..count], sw, sh);
    ghost var bag := multiset(Clipped(rects[..count], sw, sh));
    var i := 0;
    while i < count'
      invariant i <= count' <= count && AllOn(rects[..i], sw, sh) && Keeps(old(rects[..count]), rects[..count'], sw, sh)
      invariant multiset(Clipped(rects[..count'], sw, sh)) == bag
      decreases count' - i
    {
      ghost var s := rects[..count'];
      ClipStep(s, i, sw, sh);
      var c := Clip(rects[i], sw, sh);
      if c.None? {
        RemovedIs(s, i);
        rects[i] := rects[count' - 1];
        count' := count' - 1;
        assert rects[..count'] == Removed(s, i);
      } else {
        rects[i] := c.value;
        assert rects[..count'] == s[i := c.value];
        i := i + 1;
      }
      KeepsTrans(old(rects[..count]), s, rects[..count'], sw, sh);
    }
    ClippedDone(rects[..count'], sw, sh);
  }

  lemma ClipStep(s: seq<Rect>, i: nat, sw: int, sh: int)
    requires i < |s| && sw <= INT_MAX && sh <= INT_MAX
    ensures var c := Clip(s[i], sw, sh);
            var t := if c.Some? then s[i := c.value] else Removed(s, i);
            Keeps(s, t, sw, sh) && multiset(Clipped(t, sw, sh)) == multiset(Clipped(s, sw, sh))
  {
    hide Clip, Clipped, Keeps, Removed;
    ClippedKeeps(s, i, sw, sh);
    var c := Clip(s[i], sw, sh);
    if c.None? {
      ClippedRemoved(s, i, sw, sh);
    } else {
      ClipTwice(s[i], c.value, sw, sh);
      ClippedOne(s, i, c.value, sw, sh);
    }
  }

  lemma RemovedIs(s: seq<Rect>, j: nat)
    requires j < |s|
    ensures Removed(s, j) == s[j := s[|s| - 1]][..|s| - 1]
  {
  }

  /** The second list comes from the first by merging pairs for the one reason; no pixel is lost, and nothing leaves the
      bounding box. */
  ghost predicate Reduces(why: Reason, s: seq<Rect>, t: seq<Rect>, sw: int, sh: int) {
    && |t| <= |s| && AllOn(t, sw, sh) && Keeps(s, t, sw, sh)
    && Joined(why, multiset(s), multiset(t), |s| - |t|)
  }

  lemma ReducesSelf(why: Reason, s: seq<Rect>, sw: int, sh: int)
    requires AllOn(s, sw, sh)
    ensures Reduces(why, s, s, sw, sh)
  {
    hide AllOn, Keeps;
    KeepsSelf(s, sw, sh);
  }

  lemma ReducesMerge(why: Reason, s: seq<Rect>, t: seq<Rect>, i: nat, j: nat, sw: int, sh: int)
    requires Reduces(why, s, t, sw, sh) && i < j < |t| && Fit(why, t[i], t[j])
    ensures |Merged(t, i, j)| == |t| - 1 && Reduces(why, s, Merged(t, i, j), sw, sh)
  {
    hide AllOn, Keeps, Fit, Joined, Joins, Merged;
    MergedAt(t, i, j);
    MergedKeeps(t, i, j, sw, sh);
    MergedJoins(why, t, i, j);
    KeepsTrans(s, t, Merged(t, i, j), sw, sh);
    JoinedOne(why, multiset(s), multiset(t), |s| - |t|, multiset(Merged(t, i, j)));
  }

  lemma ReducesTrans(why: Reason, s: seq<Rect>, t: seq<Rect>, u: seq<Rect>, sw: int, sh: int)
    requires Reduces(why, s, t, sw, sh) && Reduces(why, t, u, sw, sh)
    ensures Reduces(why, s, u, sw, sh)
  {
    hide AllOn, Keeps, Joined;
    KeepsTrans(s, t, u, sw, sh);
    JoinedTrans(why, multiset(s), multiset(t), |s| - |t|, multiset(u), |t| - |u|);
  }

  lemma ReducesFacts(why: Reason, s: seq<Rect>, t: seq<Rect>, sw: int, sh: int)
    requires Reduces(why, s, t, sw, sh)
    ensures |t| <= |s| && AllOn(t, sw, sh) && Keeps(s, t, sw, sh)
    ensures Joined(why, multiset(s), multiset(t), |s| - |t|)
  {
  }

  /** None of the first n rectangles is to be merged with a later one. */
  ghost predicate Clear(why: Reason, s: seq<Rect>, n: nat) {
    forall a, b :: 0 <= a < n && a < b < |s| ==> !Fit(why, s[a], s[b])
  }

  ghost predicate ClearRow(why: Reason, s: seq<Rect>, i: nat) {
    i < |s| && forall b :: i < b < |s| ==> !Fit(why, s[i], s[b])
  }

  lemma ClearStart(why: Reason, s: seq<Rect>)
    ensures Clear(why, s, 0)
  {
  }

  lemma ClearNext(why: Reason, s: seq<Rect>, i: nat)
    requires Clear(why, s, i) && i < |s| && ClearRow(why, s, i)
    ensures Clear(why, s, i + 1)
  {
    hide Fit;
  }

  lemma ClearAll(s: seq<Rect>)
    ensures Clear(Touching, s, |s|) ==> Apart(s)
    ensures Clear(Saving, s, |s|) ==> Settled(s)
  {
    hide Touch, Worth, Area;
  }

  lemma MergedAt(s: seq<Rect>, i: nat, j: nat)
    requires i < j < |s|
    ensures |Merged(s, i, j)| == |s| - 1 && Merged(s, i, j)[i] == Union(s[i], s[j])
  {
    hide Union;
  }

  /** Merges rectangle j into i. */
  method MergeAt(rects: array<Rect>, count: nat, i: nat, j: nat)
    requires i < j < count <= rects.Length
    modifies rects
    ensures rects[..count - 1] == Merged(old(rects[..count]), i, j)
  {
    ghost var s := rects[..count];
    rects[i] := Union(rects[i], rects[j]);
    rects[j] := rects[count - 1];
    assert rects[..count - 1] == Merged(s, i, j);
  }

  /** Rectangle i takes in the later ones it touches. */
  method TouchRow(rects: array<Rect>, count: nat, i: nat, sw: int, sh: int) returns (count': nat)
    requires i < count <= rects.Length && AllOn(rects[..count], sw, sh)
    modifies rects
    ensures i < count' <= count && Reduces(Touching, old(rects[..count]), rects[..count'], sw, sh)
    ensures count' == count ==> rects[..count] == old(rects[..count])
    ensures count' == count ==> ClearRow(Touching, rects[..count], i)
  {
    hide Touch, Reduces, Merged;
    count' := count;
    ghost var s := rects[..count];
    ReducesSelf(Touching, s, sw, sh);
    var j := i + 1;
    while j < count'
      invariant i < j <= count' <= count && Reduces(Touching, s, rects[..count'], sw, sh)
      invariant count' == count ==> rects[..count] == s && forall b :: i < b < j ==> !Touch(rects[i], rects[b])
      decreases count' - j
    {
      if Touch(rects[i], rects[j]) {
        ReducesMerge(Touching, s, rects[..count'], i, j, sw, sh);
        MergeAt(rects, count', i, j);
        count' := count' - 1;
      } else {
        j := j + 1;
      }
    }
  }

  /** One round of the first phase. */
  method TouchRound(rects: array<Rect>, count: nat, sw: int, sh: int) returns (count': nat)
    requires count <= rects.Length && AllOn(rects[..count], sw, sh)
    modifies rects
    ensures count' <= count && Reduces(Touching, old(rects[..count]), rects[..count'], sw, sh)
    ensures count' == count ==> Apart(rects[..count])
  {
    hide Fit, Reduces, AllOn, Clear, ClearRow, Apart, Joined, Keeps;
    count' := count;
    ghost var s := rects[..count];
    ghost var t := s;
    ReducesSelf(Touching, s, sw, sh);
    ClearStart(Touching, s);
    var i := 0;
    while i < count'
      invariant i <= count' <= count && t == rects[..count'] && Reduces(Touching, s, t, sw, sh)
      invariant count' == count ==> t == s && Clear(Touching, s, i)
      decreases count - i
    {
      ReducesFacts(Touching, s, t, sw, sh);
      ghost var u := t;
      count' := TouchRow(rects, count', i, sw, sh);
      t := rects[..count'];
      ReducesTrans(Touching, s, u, t, sw, sh);
      if count' == count {
        ClearNext(Touching, s, i);
      }
      i := i + 1;
    }
    ClearAll(s);
  }

  /** The first phase: rectangles that touch or overlap are merged until none do. */
  method MergeTouching(rects: array<Rect>, count: nat, sw: int, sh: int) returns (count': nat)
    requires count <= rects.Length && AllOn(rects[..count], sw, sh)
    modifies rects
    ensures count' <= count && Reduces(Touching, old(rects[..count]), rects[..count'], sw, sh)
    ensures Apart(rects[..count'])
  {
    hide Apart, Reduces, AllOn, Joined, Keeps;
    count' := count;
    ghost var s := rects[..count];
    ReducesSelf(Touching, s, sw, sh);
    var merged := true;
    while merged
      invariant count' <= count && Reduces(Touching, s, rects[..count'], sw, sh)
      invariant !merged ==> Apart(rects[..count'])
      decreases count', merged
    {
      ghost var t := rects[..count'];
      ReducesFacts(Touching, s, t, sw, sh);
      var before := count';
      count' := TouchRound(rects, count', sw, sh);
      ReducesTrans(Touching, s, t, rects[..count'], sw, sh);
      merged := count' < before;
    }
  }

  lemma JoinedNone(why: Reason, a: multiset<Rect>)
    ensures Joined(why, a, a, 0)
  {
  }

  function Area(r: Rect): nat {
    (r.w * r.h) % U64
  }

  /** The 1.5 times rule of the second phase, in 64-bit arithmetic. */
  predicate Worth(a: Rect, areaA: nat, b: Rect) {
    Area(Union(a, b)) * 2 % U64 < ((areaA + Area(b)) % U64) * 3 % U64
  }

  /** On a screen of less than 2^61 pixels the rule says: the bounding box has less than 1.5 times the pixels of the two
      together. */
  lemma WorthMeans(a: Rect, b: Rect, sw: int, sh: int)
    requires OnScreen(a, sw, sh) && OnScreen(b, sw, sh) && sw * sh < U64 / 8
    ensures var u := Union(a, b);
            Worth(a, Area(a), b) <==> (u.w * u.h) as real < 1.5 * ((a.w * a.h + b.w * b.h) as real)
  {
    hide Union, Area, OnScreen;
    var u := Union(a, b);
    UnionIs(a, b, sw, sh);
    AreaOn(a, sw, sh);
    AreaOn(b, sw, sh);
    AreaOn(u, sw, sh);
    NoWrap(Area(u), Area(a), Area(b));
    Halves(u.w * u.h, a.w * a.h + b.w * b.h);
  }

  lemma NoWrap(u: nat, x: nat, y: nat)
    requires u < U64 / 8 && x < U64 / 8 && y < U64 / 8
    ensures u * 2 % U64 < ((x + y) % U64) * 3 % U64 <==> 2 * u < 3 * (x + y)
  {
  }

  lemma Halves(x: int, y: int)
    ensures 2 * x < 3 * y <==> x as real < 1.5 * (y as real)
  {
  }

  lemma AreaOn(r: Rect, sw: int, sh: int)
    requires OnScreen(r, sw, sh)
    ensures 0 <= r.w * r.h <= sw * sh && (sw * sh < U64 ==> Area(r) == r.w * r.h)
  {
    assert r.w * r.h <= sw * r.h;
    assert sw * r.h <= sw * sh;
  }

  /** No two of the rectangles are worth merging. */
  ghost predicate Settled(s: seq<Rect>) {
    forall a, b :: 0 <= a < b < |s| ==> !Worth(s[a], Area(s[a]), s[b])
  }

  /** Rectangle i takes in the later ones that are worth it. */
  method AreaRow(rects: array<Rect>, count: nat, i: nat, sw: int, sh: int) returns (count': nat)
    requires i < count <= rects.Length && AllOn(rects[..count], sw, sh)
    modifies rects
    ensures i < count' <= count && Reduces(Saving, old(rects[..count]), rects[..count'], sw, sh)
    ensures count' == count ==> rects[..count] == old(rects[..count])
    ensures count' == count ==> ClearRow(Saving, rects[..count], i)
  {
    hide Worth, Area, Union, Reduces, Merged;
    count' := count;
    ghost var s := rects[..count];
    ReducesSelf(Saving, s, sw, sh);
    var area := Area(rects[i]);
    var j := i + 1;
    while j < count'
      invariant i < j <= count' <= count && Reduces(Saving, s, rects[..count'], sw, sh) && area == Area(rects[i])
      invariant count' == count ==>
                  rects[..count] == s && forall b :: i < b < j ==> !Worth(rects[i], Area(rects[i]), rects[b])
      decreases count' - j
    {
      if Worth(rects[i], area, rects[j]) {
        ghost var t := rects[..count'];
        ReducesMerge(Saving, s, t, i, j, sw, sh);
        MergedAt(t, i, j);
        area := Area(Union(rects[i], rects[j]));
        MergeAt(rects, count', i, j);
        count' := count' - 1;
        assert rects[i] == rects[..count'][i];
      } else {
        j := j + 1;
      }
    }
  }

  /** One round of the second phase: it merges something, or there is nothing left to merge. */
  method AreaRound(rects: array<Rect>, count: nat, sw: int, sh: int) returns (count': nat)
    requires count <= rects.Length && AllOn(rects[..count], sw, sh)
    modifies rects
    ensures count' <= count && Reduces(Saving, old(rects[..count]), rects[..count'], sw, sh)
    ensures count' == count ==> Settled(rects[..count])
  {
    hide Fit, Reduces, AllOn, Clear, ClearRow, Settled, Joined, Keeps;
    count' := count;
    ghost var s := rects[..count];
    ghost var t := s;
    ReducesSelf(Saving, s, sw, sh);
    ClearStart(Saving, s);
    var i := 0;
    while i < count'
      invariant i <= count' <= count && t == rects[..count'] && Reduces(Saving, s, t, sw, sh)
      invariant count' == count ==> t == s && Clear(Saving, s, i)
      decreases count - i
    {
      ReducesFacts(Saving, s, t, sw, sh);
      ghost var u := t;
      count' := AreaRow(rects, count', i, sw, sh);
      t := rects[..count'];
      ReducesTrans(Saving, s, u, t, sw, sh);
      if count' == count {
        ClearNext(Saving, s, i);
      }
      i := i + 1;
    }
    ClearAll(s);
  }

  /** From s, clipped, come the rectangles t by merging those that touch, until none do, and from t come u by merging
      those worth merging, until none are. */
  ghost predicate Normal(s: seq<Rect>, sw: int, sh: int, t: seq<Rect>, u: seq<Rect>) {
    && sw <= INT_MAX && sh <= INT_MAX && |u| <= |t| <= |Clipped(s, sw, sh)|
    && Joined(Touching, multiset(Clipped(s, sw, sh)), multiset(t), |Clipped(s, sw, sh)| - |t|) && Apart(t)
    && Joined(Saving, multiset(t), multiset(u), |t| - |u|) && Settled(u)
  }

  /** The rectangles as they are, or if there are too many of them, their bounding box. */
  ghost predicate Capped(u: seq<Rect>, limit: nat, r: seq<Rect>, sw: int, sh: int) {
    if |u| <= limit then r == u else |r| == 1 && Keeps(u, r, sw, sh)
  }

  /** Rectangles of which none touch and none are worth merging stay as they are. */
  lemma NormalStays(s: seq<Rect>, sw: int, sh: int, t: seq<Rect>, u: seq<Rect>)
    requires Normal(s, sw, sh, t, u) && Apart(Clipped(s, sw, sh)) && Settled(Clipped(s, sw, sh))
    ensures multiset(u) == multiset(t) == multiset(Clipped(s, sw, sh))
  {
    hide Joined, Touch, Worth, Area;
    var c := Clipped(s, sw, sh);
    NoneFit(Touching, c);
    FirstStep(Touching, multiset(c), multiset(t), |c| - |t|);
    NoneFit(Saving, c);
    FirstStep(Saving, multiset(t), multiset(u), |t| - |u|);
  }

  lemma NoneFit(why: Reason, s: seq<Rect>)
    requires if why == Touching then Apart(s) else Settled(s)
    ensures forall b :: !Joins(why, multiset(s), b)
  {
    hide Touch, Worth, Area, Union;
    forall x, y | multiset{x, y} <= multiset(s)
      ensures !Fit(why, x, y)
    {
      var i, j := Places(s, x, y);
      FitEither(why, x, y);
    }
  }

  lemma FitEither(why: Reason, x: Rect, y: Rect)
    ensures Fit(why, x, y) <==> Fit(why, y, x)
  {
    hide Area;
    assert Union(x, y) == Union(y, x);
  }

  /** Two members of a bag have two places. */
  lemma Places(s: seq<Rect>, x: Rect, y: Rect) returns (i: nat, j: nat)
    requires multiset{x, y} <= multiset(s)
    ensures i < j < |s| && ((s[i] == x && s[j] == y) || (s[i] == y && s[j] == x))
  {
    assert x in multiset(s);
    var a :| 0 <= a < |s| && s[a] == x;
    assert s == s[..a] + [x] + s[a + 1..];
    var rest := s[..a] + s[a + 1..];
    assert multiset(s) == multiset(rest) + multiset{x};
    assert y in multiset(rest);
    var b :| 0 <= b < |rest| && rest[b] == y;
    if b < a {
      i, j := b, a;
    } else {
      i, j := a, b + 1;
    }
  }

  lemma {:induction false} FirstStep(why: Reason, a: multiset<Rect>, b: multiset<Rect>, n: nat)
    requires Joined(why, a, b, n) && forall c :: !Joins(why, a, c)
    ensures b == a
    decreases n
  {
    hide Joins;
    if n > 0 {
      var m := n - 1;
      var c :| Joined(why, a, c, m) && Joins(why, c, b);
      FirstStep(why, a, c, m);
    }
  }

  /** The second phase: rectangles are merged as long as that saves area. */
  method MergeSaving(rects: array<Rect>, count: nat, sw: int, sh: int) returns (count': nat)
    requires count <= rects.Length && AllOn(rects[..count], sw, sh)
    modifies rects
    ensures count' <= count && Reduces(Saving, old(rects[..count]), rects[..count'], sw, sh)
    ensures Settled(rects[..count'])
  {
    hide Settled, Reduces, AllOn, Joined, Keeps;
    count' := count;
    ghost var s := rects[..count];
    ReducesSelf(Saving, s, sw, sh);
    var merged := true;
    while merged
      invariant count' <= count && Reduces(Saving, s, rects[..count'], sw, sh)
      invariant !merged ==> Settled(rects[..count'])
      decreases count', merged
    {
      ghost var t := rects[..count'];
      ReducesFacts(Saving, s, t, sw, sh);
      var before := count';
      count' := AreaRound(rects, count', sw, sh);
      ReducesTrans(Saving, s, t, rects[..count'], sw, sh);
      merged := count' < before;
    }
  }

  /** The bounding box of all. */
  method Bounds(rects: array<Rect>, count: nat, sw: int, sh: int) returns (b: Rect)
    requires 0 < count <= rects.Length && AllOn(rects[..count], sw, sh)
    ensures OnScreen(b, sw, sh) && Keeps(rects[..count], [b], sw, sh)
  {
    hide OnScreen, Union, Framed;
    b := rects[0];
    assert rects[..count][0] == b;
    FramedIn(rects[..count], 0, b);
    for i := 1 to count
      invariant OnScreen(b, sw, sh)
      invariant forall k, px, py :: 0 <= k < i && rects[k].Has(px, py) ==> b.Has(px, py)
      invariant Framed(rects[..count], b)
    {
      assert rects[..count][i] == rects[i];
      UnionIs(b, rects[i], sw, sh);
      FramedIn(rects[..count], i, rects[i]);
      FramedUnion(rects[..count], b, rects[i], sw, sh);
      b := Union(b, rects[i]);
    }
    forall px, py | 0 <= px < sw && 0 <= py < sh && Covered(rects[..count], px, py)
      ensures Covered([b], px, py)
    {
      var k :| 0 <= k < count && rects[..count][k].Has(px, py);
      assert rects[k].Has(px, py);
      assert [b][0].Has(px, py);
    }
  }

  /** Clipping and the two merge phases of normalize_dirty_rects. */
  method Merge(rects: array<Rect>, count: nat, sw: int, sh: int) returns (count': nat, ghost t: seq<Rect>)
    requires count <= rects.Length && sw <= INT_MAX && sh <= INT_MAX
    modifies rects
    ensures count' <= count && AllOn(rects[..count'], sw, sh) && Keeps(old(rects[..count]), rects[..count'], sw, sh)
    ensures Normal(old(rects[..count]), sw, sh, t, rects[..count'])
  {
    hide OnScreen, Keeps, Apart, Settled, Clipped, AllOn, Reduces, Normal, Joined;
    ghost var s := rects[..count];
    count' := ClipAll(rects, count, sw, sh);
    ghost var c := rects[..count'];
    t := c;
    if count' <= 1 {
      FewNormal(s, c, t, sw, sh);
      return;
    }
    count' := MergeTouching(rects, count', sw, sh);
    t := rects[..count'];
    ReducesFacts(Touching, c, t, sw, sh);
    KeepsTrans(s, c, t, sw, sh);
    if count' <= 1 {
      FewNormal(s, c, t, sw, sh);
      return;
    }
    count' := MergeSaving(rects, count', sw, sh);
    ghost var u := rects[..count'];
    ReducesFacts(Saving, t, u, sw, sh);
    KeepsTrans(s, t, u, sw, sh);
    NormalIs(s, c, t, u, sw, sh);
  }

  /** The end of normalize_dirty_rects: too many rectangles become one. */
  method Cap(rects: array<Rect>, count: nat, limit: nat, sw: int, sh: int) returns (count': nat)
    requires count <= rects.Length && AllOn(rects[..count], sw, sh) && limit > 0
    modifies rects
    ensures count' <= count && count' <= limit && AllOn(rects[..count'], sw, sh)
    ensures Capped(old(rects[..count]), limit, rects[..count'], sw, sh)
    ensures Keeps(old(rects[..count]), rects[..count'], sw, sh)
    ensures Settled(old(rects[..count])) ==> Settled(rects[..count'])
  {
    hide OnScreen, Keeps, Settled, AllOn, Capped;
    ghost var u := rects[..count];
    KeepsSelf(u, sw, sh);
    UncappedIs(u, limit, sw, sh);
    if count <= limit {
      return count;
    }
    var b := Bounds(rects, count, sw, sh);
    rects[0] := b;
    assert rects[..1] == [b];
    FewSettled([b]);
    OneOn(b, sw, sh);
    CappedIs(u, limit, b, sw, sh);
    return 1;
  }

  /** normalize_dirty_rects. */
  method Normalize(rects: array<Rect>, count: int, sw: int, sh: int, interactive: bool) returns (count': int)
    requires count <= rects.Length && sw <= INT_MAX && sh <= INT_MAX
    modifies rects
    ensures count <= 0 ==> count' == count && rects[..] == old(rects[..])
    ensures count > 0 ==> 0 <= count' <= count && count' <= if interactive then 24 else 16
    ensures count > 0 ==> AllOn(rects[..count'], sw, sh) && Keeps(old(rects[..count]), rects[..count'], sw, sh)
    ensures count > 0 ==> Settled(rects[..count'])
    ensures count > 0 ==> exists t, u ::
              Normal(old(rects[..count]), sw, sh, t, u) &&
              Capped(u, if interactive then 24 else 16, rects[..count'], sw, sh)
  {
    hide Keeps, Settled, AllOn, Normal, Capped;
    if count <= 0 {
      return count;
    }
    ghost var s := rects[..count];
    ghost var t;
    count', t := Merge(rects, count, sw, sh);
    ghost var u := rects[..count'];
    NormalSettles(s, sw, sh, t, u);
    count' := Cap(rects, count', if interactive then 24 else 16, sw, sh);
    KeepsTrans(s, u, rects[..count'], sw, sh);
  }

  lemma NormalSettles(s: seq<Rect>, sw: int, sh: int, t: seq<Rect>, u: seq<Rect>)
    requires Normal(s, sw, sh, t, u)
    ensures Settled(u)
  {
    hide Settled, Joined, Clipped;
  }

  lemma NormalIs(s: seq<Rect>, c: seq<Rect>, t: seq<Rect>, u: seq<Rect>, sw: int, sh: int)
    requires sw <= INT_MAX && sh <= INT_MAX && multiset(c) == multiset(Clipped(s, sw, sh))
    requires Reduces(Touching, c, t, sw, sh) && Apart(t) && Reduces(Saving, t, u, sw, sh) && Settled(u)
    ensures Normal(s, sw, sh, t, u)
  {
    hide Keeps, AllOn, Joined, Apart, Settled, Clipped;
    SameLength(c, Clipped(s, sw, sh));
  }

  /** One rectangle, or none, needs no merging. */
  lemma FewNormal(s: seq<Rect>, c: seq<Rect>, t: seq<Rect>, sw: int, sh: int)
    requires sw <= INT_MAX && sh <= INT_MAX && multiset(c) == multiset(Clipped(s, sw, sh)) && AllOn(c, sw, sh)
    requires |t| <= 1 && (t == c || Reduces(Touching, c, t, sw, sh))
    ensures Normal(s, sw, sh, t, t) && Settled(t)
  {
    hide Normal, AllOn, Apart, Settled, Clipped, Reduces, Joined, Keeps;
    ReducesSelf(Touching, c, sw, sh);
    ReducesFacts(Touching, c, t, sw, sh);
    ReducesSelf(Saving, t, sw, sh);
    FewSettled(t);
    NormalIs(s, c, t, t, sw, sh);
  }

  lemma UncappedIs(u: seq<Rect>, limit: nat, sw: int, sh: int)
    ensures |u| <= limit ==> Capped(u, limit, u, sw, sh)
  {
    hide Keeps;
  }

  lemma CappedIs(u: seq<Rect>, limit: nat, b: Rect, sw: int, sh: int)
    requires |u| > limit && Keeps(u, [b], sw, sh)
    ensures Capped(u, limit, [b], sw, sh)
  {
    hide Keeps;
  }

  lemma OneOn(b: Rect, sw: int, sh: int)
    requires OnScreen(b, sw, sh)
    ensures AllOn([b], sw, sh)
  {
  }

  lemma FewSettled(s: seq<Rect>)
    requires |s| <= 1
    ensures Apart(s) && Settled(s)
  {
  }

  lemma SameLength(s: seq<Rect>, t: seq<Rect>)
    requires multiset(s) == multiset(t)
    ensures |s| == |t|
  {
    assert |multiset(s)| == |s| && |multiset(t)| == |t|;
  }

  /** Of rectangles that need no merging, and are not too many, each comes out as it was clipped, and no other. */
  lemma NormalizeStays(s: seq<Rect>, sw: int, sh: int, t: seq<Rect>, u: seq<Rect>, limit: nat, r: seq<Rect>)
    requires Normal(s, sw, sh, t, u) && Capped(u, limit, r, sw, sh)
    requires Apart(Clipped(s, sw, sh)) && Settled(Clipped(s, sw, sh)) && |Clipped(s, sw, sh)| <= limit
    ensures multiset(r) == multiset(Clipped(s, sw, sh))
  {
    hide Joined, Apart, Settled, Keeps;
    NormalStays(s, sw, sh, t, u);
  }

  /** enqueue_damage_rect. */
  method Enqueue(rects: array<Rect>, count: nat, max: int, sw: int, sh: int, incoming: Rect) returns (count': nat)
    requires max <= rects.Length && count <= rects.Length && (max > 0 ==> count <= max) &&
             sw <= INT_MAX && sh <= INT_MAX
    requires AllOn(rects[..count], sw, sh)
    modifies rects
    ensures max <= 0 ==> count' == count && rects[..] == old(rects[..])
    ensures max > 0 ==> count' <= max && AllOn(rects[..count'], sw, sh)
    ensures max > 0 ==> Keeps(old(rects[..count]) + [incoming], rects[..count'], sw, sh)
    ensures max > 0 ==> Queued(old(rects[..count]), max, Clip(incoming, sw, sh), sw, sh, rects[..count'])
  {
    hide OnScreen, Keeps, Clip, Union, Touch;
    if max <= 0 {
      return count;
    }
    ghost var s := rects[..count];
    var c := Clip(incoming, sw, sh);
    if c.None? {
      NothingToAdd(s, incoming, sw, sh);
      return count;
    }
    var r := c.value;
    Incoming(s, incoming, r, sw, sh);
    if r.x == 0 && r.y == 0 && r.w == sw && r.h == sh {
      FullScreen(s + [incoming], r, sw, sh);
      rects[0] := r;
      assert rects[..1] == [r];
      return 1;
    }
    for i := 0 to count
      invariant rects[..] == old(rects[..])
      invariant forall k :: 0 <= k < i ==> !Touch(s[k], r)
    {
      if Touch(rects[i], r) {
        Absorbed(s, i, r, sw, sh);
        KeepsTrans(s + [incoming], s + [r], s[i := Union(s[i], r)], sw, sh);
        rects[i] := Union(rects[i], r);
        assert rects[..count] == s[i := Union(s[i], r)];
        return count;
      }
    }
    if count < max {
      rects[count] := r;
      assert rects[..count + 1] == s + [r];
      return count + 1;
    }
    var b := Bounds(rects, count, sw, sh);
    Collapsed(s, b, r, sw, sh);
    KeepsTrans(s + [incoming], s + [r], [Union(b, r)], sw, sh);
    rects[0] := Union(b, r);
    assert rects[..1] == [Union(b, r)];
    return 1;
  }

  /** What the queue s becomes: nothing is added that is off the screen; all of the screen stands alone; the first
      rectangle that touches the new one takes it in; else it is added, or if the queue is full, everything becomes
      one box. */
  ghost predicate Queued(s: seq<Rect>, max: nat, c: Option<Rect>, sw: int, sh: int, t: seq<Rect>) {
    if c.None? then t == s
    else if c.value == Rect(0, 0, sw, sh) then t == [c.value]
    else if exists k :: 0 <= k < |s| && Touch(s[k], c.value) then
      exists k :: && 0 <= k < |s| && Touch(s[k], c.value) && (forall m :: 0 <= m < k ==> !Touch(s[m], c.value))
                  && t == s[k := Union(s[k], c.value)]
    else if |s| < max then t == s + [c.value]
    else |t| == 1 && Keeps(s + [c.value], t, sw, sh)
  }

  lemma NothingToAdd(s: seq<Rect>, incoming: Rect, sw: int, sh: int)
    requires sw <= INT_MAX && sh <= INT_MAX && Clip(incoming, sw, sh).None?
    ensures Keeps(s + [incoming], s, sw, sh)
  {
    hide Clip, Framed;
    forall px, py | 0 <= px < sw && 0 <= py < sh && Covered(s + [incoming], px, py)
      ensures Covered(s, px, py)
    {
      var k :| 0 <= k < |s + [incoming]| && (s + [incoming])[k].Has(px, py);
      assert k < |s|;
      assert s[k].Has(px, py);
    }
    var u := s + [incoming];
    forall k | 0 <= k < |s|
      ensures Framed(u, s[k])
    {
      FramedIn(u, k, s[k]);
    }
  }

  lemma Incoming(s: seq<Rect>, incoming: Rect, r: Rect, sw: int, sh: int)
    requires sw <= INT_MAX && sh <= INT_MAX && Clip(incoming, sw, sh) == Some(r)
    ensures Keeps(s + [incoming], s + [r], sw, sh)
  {
    hide Clip, Framed;
    forall px, py | 0 <= px < sw && 0 <= py < sh && Covered(s + [incoming], px, py)
      ensures Covered(s + [r], px, py)
    {
      var k :| 0 <= k < |s + [incoming]| && (s + [incoming])[k].Has(px, py);
      assert (s + [r])[k].Has(px, py);
    }
    var u, t := s + [incoming], s + [r];
    forall k | 0 <= k < |t|
      ensures Framed(u, t[k])
    {
      FramedIn(u, k, t[k]);
    }
  }

  lemma FullScreen(s: seq<Rect>, r: Rect, sw: int, sh: int)
    requires r == Rect(0, 0, sw, sh) && s != [] && Inside(r, s[|s| - 1])
    ensures Keeps(s, [r], sw, sh)
  {
    FramedIn(s, |s| - 1, r);
    forall px, py | 0 <= px < sw && 0 <= py < sh
      ensures Covered([r], px, py)
    {
      assert [r][0].Has(px, py);
    }
  }

  lemma Absorbed(s: seq<Rect>, i: nat, r: Rect, sw: int, sh: int)
    requires i < |s| && AllOn(s, sw, sh) && OnScreen(r, sw, sh)
    ensures AllOn(s[i := Union(s[i], r)], sw, sh) && Keeps(s + [r], s[i := Union(s[i], r)], sw, sh)
  {
    hide OnScreen, Union;
    UnionIs(s[i], r, sw, sh);
    var t := s[i := Union(s[i], r)];
    forall px, py | 0 <= px < sw && 0 <= py < sh && Covered(s + [r], px, py)
      ensures Covered(t, px, py)
    {
      var k :| 0 <= k < |s + [r]| && (s + [r])[k].Has(px, py);
      assert t[if k == |s| then i else k].Has(px, py);
    }
    AbsorbedTight(s, i, r, sw, sh);
  }

  lemma AbsorbedTight(s: seq<Rect>, i: nat, r: Rect, sw: int, sh: int)
    requires i < |s| && AllOn(s, sw, sh) && OnScreen(r, sw, sh)
    ensures Tight(s + [r], s[i := Union(s[i], r)])
  {
    hide Union, OnScreen, Framed;
    var u, t := s + [r], s[i := Union(s[i], r)];
    FramedIn(u, i, s[i]);
    FramedIn(u, |s|, r);
    FramedUnion(u, s[i], r, sw, sh);
    forall k | 0 <= k < |t|
      ensures Framed(u, t[k])
    {
      if k != i {
        FramedIn(u, k, t[k]);
      }
    }
  }

  lemma Collapsed(s: seq<Rect>, b: Rect, r: Rect, sw: int, sh: int)
    requires OnScreen(b, sw, sh) && OnScreen(r, sw, sh) && Keeps(s, [b], sw, sh)
    ensures OnScreen(Union(b, r), sw, sh) && Keeps(s + [r], [Union(b, r)], sw, sh)
  {
    hide OnScreen, Union;
    UnionIs(b, r, sw, sh);
    forall px, py | 0 <= px < sw && 0 <= py < sh && Covered(s + [r], px, py)
      ensures Covered([Union(b, r)], px, py)
    {
      var k :| 0 <= k < |s + [r]| && (s + [r])[k].Has(px, py);
      if k < |s| {
        assert s[k].Has(px, py);
        assert Covered([b], px, py);
      }
      assert [Union(b, r)][0].Has(px, py);
    }
    CollapsedTight(s, b, r, sw, sh);
  }

  lemma CollapsedTight(s: seq<Rect>, b: Rect, r: Rect, sw: int, sh: int)
    requires OnScreen(b, sw, sh) && OnScreen(r, sw, sh) && Tight(s, [b])
    ensures Tight(s + [r], [Union(b, r)])
  {
    hide Union, OnScreen, Framed;
    var u := s + [r];
    forall k | 0 <= k < |s|
      ensures Framed(u, s[k])
    {
      FramedIn(u, k, s[k]);
    }
    assert Tight(u, s);
    TightTrans(u, s, [b]);
    assert Framed(u, [b][0]);
    FramedIn(u, |s|, r);
    FramedUnion(u, b, r, sw, sh);
  }
}
