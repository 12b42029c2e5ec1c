/** The double-buffered frame buffer: drawing goes to the back buffer and records what changed, a swap
    copies the recorded rectangles to the screen. */
module Framebuffer {
  import opened Options
  import opened Damage

  const MAX_DIRTY: nat := 128

  /** rect_contains. */
  predicate Contains(outer: Rect, inner: Rect) {
    && outer.w > 0 && outer.h > 0 && inner.w > 0 && inner.h > 0
    && inner.x >= outer.x && inner.y >= outer.y && inner.Right() <= outer.Right() && inner.Bottom() <= outer.Bottom()
  }

  /** Containing means: none is empty, and every pixel of the one is a pixel of the other. */
  lemma ContainsMeans(outer: Rect, inner: Rect)
    ensures Contains(outer, inner) <==>
              inner.w > 0 && inner.h > 0 && forall px, py :: inner.Has(px, py) ==> outer.Has(px, py)
  {
    if inner.w > 0 && inner.h > 0 && forall px, py :: inner.Has(px, py) ==> outer.Has(px, py) {
      assert inner.Has(inner.x, inner.y) && inner.Has(inner.Right() - 1, inner.Bottom() - 1);
    }
  }

  /** Everything recorded before and the new rectangle are recorded. */
  ghost predicate Records(prior: seq<Rect>, r: Rect, updated: seq<Rect>) {
    forall px, py :: Covered(prior, px, py) || r.Has(px, py) ==> Covered(updated, px, py)
  }

  lemma ContainedRecords(s: seq<Rect>, i: nat, r: Rect)
    requires i < |s| && Contains(s[i], r)
    ensures Records(s, r, s)
  {
    forall px, py | r.Has(px, py)
      ensures Covered(s, px, py)
    {
      assert s[i].Has(px, py);
    }
  }

  lemma AppendRecords(s: seq<Rect>, r: Rect)
    ensures Records(s, r, s + [r])
  {
    var t := s + [r];
    forall px, py | Covered(s, px, py) || r.Has(px, py)
      ensures Covered(t, px, py)
    {
      if r.Has(px, py) {
        assert t[|s|].Has(px, py);
      } else {
        var k :| 0 <= k < |s| && s[k].Has(px, py);
        assert t[k].Has(px, py);
      }
    }
  }

  /** Rectangle i grows to the union with another. */
  lemma GrowRecords(s: seq<Rect>, i: nat, r: Rect, sw: int, sh: int)
    requires i < |s| && AllOn(s, sw, sh) && OnScreen(r, sw, sh)
    ensures AllOn(s[i := Union(s[i], r)], sw, sh) && Records(s, r, s[i := Union(s[i], r)])
  {
    hide OnScreen, Union;
    UnionIs(s[i], r, sw, sh);
    var t := s[i := Union(s[i], r)];
    forall px, py | Covered(s, px, py) || r.Has(px, py)
      ensures Covered(t, px, py)
    {
      if r.Has(px, py) {
        assert t[i].Has(px, py);
      } else {
        var k :| 0 <= k < |s| && s[k].Has(px, py);
        assert t[k].Has(px, py);
      }
    }
  }

  /** Two recorded rectangles become one. */
  lemma MergeRecords(s: seq<Rect>, i: nat, j: nat, sw: int, sh: int)
    requires i < j < |s| && AllOn(s, sw, sh)
    ensures AllOn(Merged(s, i, j), sw, sh) && forall px, py :: Covered(s, px, py) ==> Covered(Merged(s, i, j), px, py)
  {
    hide OnScreen, Union;
    MergedKeeps(s, i, j, sw, sh);
    UnionIs(s[i], s[j], sw, sh);
    var t := Merged(s, i, j);
    forall px, py | Covered(s, px, py)
      ensures Covered(t, px, py)
    {
      var k :| 0 <= k < |s| && s[k].Has(px, py);
      var m := if k == j then i else if k == |s| - 1 then j else k;
      assert t[m].Has(px, py);
    }
  }

  ghost predicate NoneMeets(s: seq<Rect>, c: Rect, n: nat) {
    forall k :: 0 <= k < n && k < |s| ==> !Contains(s[k], c) && !Touch(s[k], c)
  }

  /** What becomes of the record s when the visible part c is added: it is full only if there is no room for a rectangle
      that neither lies in a recorded one nor touches one; one that meets no other is added as it is; the first it
      meets has it already, or it and what it touches are merged. */
  ghost predicate Noted(s: seq<Rect>, c: Option<Rect>, t: seq<Rect>, full: bool) {
    if c.None? then t == s && !full
    else if NoneMeets(s, c.value, |s|) then
      if |s| < MAX_DIRTY then t == s + [c.value] && !full else t == s && full
    else
      !full && exists k :: NotedAt(s, c.value, t, k)
  }

  ghost predicate NotedAt(s: seq<Rect>, c: Rect, t: seq<Rect>, k: nat) {
    k < |s| && NoneMeets(s, c, k) &&
    if Contains(s[k], c) then t == s
    else Touch(s[k], c) && |t| <= |s| && Joined(Touching, multiset(s + [c]), multiset(t), |s| + 1 - |t|)
  }

  lemma NothingVisible(r: Rect, sw: int, sh: int)
    requires (r.w <= 0 || r.h <= 0) && sw <= INT_MAX && sh <= INT_MAX
    ensures Clip(r, sw, sh).None?
  {
  }

  /** What scrolling records: the rows filled in at the bottom, then the whole visible rectangle. */
  ghost predicate Shifted(s: seq<Rect>, c: Option<Rect>, pixels: int, t: seq<Rect>, full: bool) {
    if c.None? || pixels <= 0 then t == s && !full
    else if pixels >= c.value.h then Noted(s, c, t, full)
    else
      var rows := Rows(c, pixels);
      exists u, f :: NotedTwice(s, rows, u, f, c, t, full)
  }

  ghost predicate NotedTwice(s: seq<Rect>, b: Option<Rect>, u: seq<Rect>, f: bool, c: Option<Rect>, t: seq<Rect>,
                             full: bool) {
    Noted(s, b, u, f) && if f then full && t == u else Noted(u, c, t, full)
  }

  function Rows(c: Option<Rect>, pixels: int): Option<Rect> {
    if c.None? then None else Some(Rect(c.value.x, c.value.Bottom() - pixels, c.value.w, pixels))
  }

  lemma ShiftedTwice(s: seq<Rect>, c: Option<Rect>, pixels: int, u: seq<Rect>, f: bool, t: seq<Rect>, full: bool)
    requires c.Some? && 0 < pixels < c.value.h && NotedTwice(s, Rows(c, pixels), u, f, c, t, full)
    ensures Shifted(s, c, pixels, t, full)
  {
    hide NotedTwice;
  }

  lemma ShiftedNone(s: seq<Rect>, c: Option<Rect>, pixels: int)
    ensures c.None? || pixels <= 0 ==> Shifted(s, c, pixels, s, false)
    ensures forall t, full :: c.Some? && 0 < pixels && pixels >= c.value.h && Noted(s, c, t, full) ==>
              Shifted(s, c, pixels, t, full)
  {
    hide Noted;
  }

  lemma NotedNothing(s: seq<Rect>)
    ensures Noted(s, None, s, false)
  {
  }

  lemma OnePixel(x: int, y: int, sw: int, sh: int)
    requires 0 <= x < sw <= INT_MAX && 0 <= y < sh <= INT_MAX
    ensures Clip(Rect(x, y, 1, 1), sw, sh) == Some(Rect(x, y, 1, 1))
  {
  }

  lemma BottomOn(q: Rect, pixels: int, sw: int, sh: int)
    requires OnScreen(q, sw, sh) && 0 < pixels < q.h
    ensures var b := Rect(q.x, q.Bottom() - pixels, q.w, pixels); Clip(b, sw, sh) == Some(b)
  {
  }

  lemma AbsorbJoins(s: seq<Rect>, i: nat, c: Rect)
    requires i < |s| && Touch(s[i], c)
    ensures Joined(Touching, multiset(s + [c]), multiset(s[i := Union(s[i], c)]), 1)
  {
    hide Touch, Union;
    var t := s + [c];
    MergedJoins(Touching, t, i, |s|);
    assert Merged(t, i, |s|) == s[i := Union(s[i], c)];
    JoinedNone(Touching, multiset(t));
    JoinedOne(Touching, multiset(t), multiset(t), 0, multiset(s[i := Union(s[i], c)]));
  }

  class Screen {
    const width: nat
    const height: nat
    const pitch: nat
    const back: array2<int>
    const front: array2<int>
    var dirty: seq<Rect>
    var full: bool

    ghost predicate Ok()
      reads this
    {
      && 0 < width <= pitch && 0 < height && width <= INT_MAX && height <= INT_MAX && back != front
      && back.Length0 == front.Length0 == height && back.Length1 == front.Length1 == pitch
      && |dirty| <= MAX_DIRTY && AllOn(dirty, width, height)
    }

    /** A visible pixel agrees on both buffers, or is to be copied by the next swap. */
    ghost predicate Tracked(x: int, y: int)
      requires Ok() && 0 <= x < width && 0 <= y < height
      reads this, back, front
    {
      back[y, x] == front[y, x] || full || Covered(dirty, x, y)
    }

    ghost predicate Valid()
      reads this, back, front
    {
      Ok() && forall x, y :: 0 <= x < width && 0 <= y < height ==> Tracked(x, y)
    }

    /** A new back buffer: the next swap copies everything. */
    constructor (width: nat, height: nat, pitch: nat, back: array2<int>, front: array2<int>)
      requires 0 < width <= pitch && 0 < height && width <= INT_MAX && height <= INT_MAX && back != front
      requires back.Length0 == front.Length0 == height && back.Length1 == front.Length1 == pitch
      ensures Valid() && full && dirty == [] && this.back == back && this.front == front
    {
      this.width, this.height, this.pitch := width, height, pitch;
      this.back, this.front, this.dirty, this.full := back, front, [], true;
    }

    /** mark_dirty_rect. */
    method MarkDirty(r: Rect)
      requires Ok()
      modifies this`dirty, this`full
      ensures Ok() && (old(full) ==> full && dirty == old(dirty))
      ensures forall x, y ::
                0 <= x < width && 0 <= y < height && (old(full) || Covered(old(dirty), x, y) || r.Has(x, y)) ==>
                full || Covered(dirty, x, y)
      ensures !old(full) ==> Noted(old(dirty), Clip(r, width, height), dirty, full)
    {
      hide OnScreen, Union, Covered, Clip, Contains, Touch, Merged, Records, Joined, Joins;
      if full || r.w <= 0 || r.h <= 0 {
        if !full {
          NothingVisible(r, width, height);
        }
        return;
      }
      var c := Clip(r, width, height);
      if c.None? {
        return;
      }
      var candidate := c.value;
      ghost var s := dirty;
      for i := 0 to |dirty|
        invariant dirty == s && !full && NoneMeets(s, candidate, i)
      {
        if Contains(dirty[i], candidate) {
          assert NotedAt(s, candidate, dirty, i);
          ContainedRecords(dirty, i, candidate);
          RecordsFor(s, candidate, dirty);
          return;
        }
        if Touch(dirty[i], candidate) {
          GrowRecords(dirty, i, candidate, width, height);
          RecordsFor(s, candidate, dirty[i := Union(dirty[i], candidate)]);
          AbsorbJoins(s, i, candidate);
          dirty := dirty[i := Union(dirty[i], candidate)];
          ghost var t := dirty;
          Absorb(i);
          JoinedTrans(Touching, multiset(s + [candidate]), multiset(t), 1, multiset(dirty), |t| - |dirty|);
          assert NotedAt(s, candidate, dirty, i);
          return;
        }
      }
      if |dirty| < MAX_DIRTY {
        AppendRecords(dirty, candidate);
        RecordsFor(s, candidate, dirty + [candidate]);
        dirty := dirty + [candidate];
      } else {
        full := true;
      }
    }

    /** Rectangle i takes in the later ones it touches. */
    method Absorb(i: nat)
      requires Ok() && i < |dirty|
      modifies this`dirty
      ensures Ok() && forall x, y :: Covered(old(dirty), x, y) ==> Covered(dirty, x, y)
      ensures |dirty| <= |old(dirty)|
      ensures Joined(Touching, multiset(old(dirty)), multiset(dirty), |old(dirty)| - |dirty|)
    {
      hide OnScreen, Union, Covered, Touch, Merged, Joined, Joins;
      var candidate := dirty[i];
      var j := i + 1;
      JoinedNone(Touching, multiset(dirty));
      while j < |dirty|
        invariant Ok() && i < j <= |dirty| <= |old(dirty)| && candidate == dirty[i]
        invariant Joined(Touching, multiset(old(dirty)), multiset(dirty), |old(dirty)| - |dirty|)
        invariant forall x, y :: Covered(old(dirty), x, y) ==> Covered(dirty, x, y)
        decreases |dirty| - j
      {
        if Touch(dirty[j], candidate) {
          MergeRecords(dirty, i, j, width, height);
          MergedShape(dirty, i, j);
          FitEither(Touching, dirty[j], dirty[i]);
          MergedJoins(Touching, dirty, i, j);
          JoinedOne(Touching, multiset(old(dirty)), multiset(dirty), |old(dirty)| - |dirty|,
                    multiset(Merged(dirty, i, j)));
          candidate := Union(candidate, dirty[j]);
          dirty := Merged(dirty, i, j);
        } else {
          j := j + 1;
        }
      }
    }

    /** gfx_put_pixel. */
    method PutPixel(x: int, y: int, color: int)
      requires Valid()
      modifies this`dirty, this`full, back
      ensures Valid()
      ensures forall j, i :: 0 <= j < height && 0 <= i < pitch ==>
                back[j, i] == if j == y && i == x && x < width then color else old(back[j, i])
      ensures old(full) || (0 <= x < width && 0 <= y < height ==> old(back[y, x]) == color) ==>
                dirty == old(dirty) && full == old(full)
      ensures !old(full) && 0 <= x < width && 0 <= y < height && old(back[y, x]) != color ==>
                Noted(old(dirty), Some(Rect(x, y, 1, 1)), dirty, full)
    {
      hide Covered, AllOn, Noted;
      if x < 0 || y < 0 || x >= width || y >= height {
        return;
      }
      if back[y, x] == color {
        return;
      }
      back[y, x] := color;
      OnePixel(x, y, width, height);
      MarkDirty(Rect(x, y, 1, 1));
      forall i, j | 0 <= i < width && 0 <= j < height
        ensures Tracked(i, j)
      {
        assert old(Tracked(i, j));
      }
    }

    /** One row of gfx_fill_rect: pixels are stored in pairs, after one that makes the address even. */
    method FillRow(y: nat, x: nat, w: nat, color: int)
      requires Ok() && y < height && 0 < w && x + w <= width
      modifies back
      ensures forall j, i :: 0 <= j < height && 0 <= i < pitch ==>
                back[j, i] == if j == y && x <= i < x + w then color else old(back[j, i])
    {
      hide AllOn;
      var k := 0;
      if (y * pitch + x) % 2 == 1 {
        back[y, x] := color;
        k := 1;
      }
      while k + 1 < w
        invariant k <= w
        invariant forall j, i :: 0 <= j < height && 0 <= i < pitch ==>
                    back[j, i] == if j == y && x <= i < x + k then color else old(back[j, i])
      {
        back[y, x + k] := color;
        back[y, x + k + 1] := color;
        k := k + 2;
      }
      while k < w
        invariant k <= w
        invariant forall j, i :: 0 <= j < height && 0 <= i < pitch ==>
                    back[j, i] == if j == y && x <= i < x + k then color else old(back[j, i])
      {
        back[y, x + k] := color;
        k := k + 1;
      }
    }

    /** gfx_fill_rect. */
    method FillRect(r: Rect, color: int)
      requires Ok()
      modifies this`dirty, this`full, back
      ensures Ok() && (old(full) ==> full)
      ensures forall j, i :: 0 <= j < height && 0 <= i < pitch ==>
                back[j, i] == if i < width && r.Has(i, j) then color else old(back[j, i])
      ensures forall x, y :: 0 <= x < width && 0 <= y < height && (old(Tracked(x, y)) || r.Has(x, y)) ==> Tracked(x, y)
      ensures old(full) ==> dirty == old(dirty)
      ensures !old(full) ==> Noted(old(dirty), Clip(r, width, height), dirty, full)
    {
      hide Covered, AllOn, OnScreen, Noted;
      NotedNothing(dirty);
      var c := Clip(r, width, height);
      if c.None? {
        return;
      }
      ClipBounds(r, width, height);
      var q := c.value;
      for y := q.y to q.Bottom()
        invariant Ok() && full == old(full) && dirty == old(dirty)
        invariant forall j, i :: 0 <= j < height && 0 <= i < pitch ==>
                    back[j, i] == if q.y <= j < y && q.x <= i < q.Right() then color else old(back[j, i])
      {
        FillRow(y, q.x, q.w, color);
      }
      ClipTwice(r, q, width, height);
      MarkDirty(q);
    }

    /** gfx_clear. */
    method Clear(color: int)
      requires Ok()
      modifies this`dirty, this`full, back
      ensures Valid() && full
      ensures forall j, i :: 0 <= j < height && 0 <= i < width ==> back[j, i] == color
    {
      hide Covered, AllOn;
      FillRect(Rect(0, 0, width, height), color);
      full := true;
    }

    /** One memmove of gfx_scroll_up_rect. */
    method MoveRow(from: nat, to: nat, x: nat, w: nat)
      requires Ok() && to < from < height && x + w <= pitch
      modifies back
      ensures forall j, i :: 0 <= j < height && 0 <= i < pitch ==>
                back[j, i] == if j == to && x <= i < x + w then old(back[from, i]) else old(back[j, i])
    {
      hide AllOn;
      for k := 0 to w
        invariant forall j, i :: 0 <= j < height && 0 <= i < pitch ==>
                    back[j, i] == if j == to && x <= i < x + k then old(back[from, i]) else old(back[j, i])
      {
        back[to, x + k] := back[from, x + k];
      }
    }

    /** gfx_scroll_up_rect. */
    method ScrollUpRect(r: Rect, pixels: int, color: int)
      requires Valid()
      modifies this`dirty, this`full, back
      ensures Valid()
      ensures pixels > 0 ==> forall j, i :: 0 <= j < height && 0 <= i < width ==>
                back[j, i] == Scrolled(r, pixels, color, width, height, j, i, old(back[j, i]),
                                          old(back[if j + pixels < height then j + pixels else j, i]))
      ensures old(full) ==> full && dirty == old(dirty)
      ensures !old(full) ==> Shifted(old(dirty), Clip(r, width, height), pixels, dirty, full)
    {
      hide Covered, AllOn, OnScreen, Noted, Shifted, Clip;
      ShiftedNone(dirty, Clip(r, width, height), pixels);
      if pixels <= 0 || r.w <= 0 || r.h <= 0 {
        if r.w <= 0 || r.h <= 0 {
          NothingVisible(r, width, height);
        }
        return;
      }
      var c := Clip(r, width, height);
      if c.None? {
        return;
      }
      ClipBounds(r, width, height);
      var q := c.value;
      if pixels >= q.h {
        ClipTwice(r, q, width, height);
        FillRect(q, color);
        forall i, j | 0 <= i < width && 0 <= j < height
          ensures Tracked(i, j)
        {
          assert old(Tracked(i, j));
        }
        return;
      }
      for y := q.y to q.Bottom() - pixels
        invariant Ok() && full == old(full) && dirty == old(dirty)
        invariant forall j, i :: 0 <= j < height && 0 <= i < pitch ==>
                    back[j, i] ==
                    if q.y <= j < y && q.x <= i < q.Right() then old(back[j + pixels, i]) else old(back[j, i])
      {
        MoveRow(y + pixels, y, q.x, q.w);
      }
      label Moved:
      BottomOn(q, pixels, width, height);
      FillRect(Rect(q.x, q.Bottom() - pixels, q.w, pixels), color);
      label Filled:
      ClipTwice(r, q, width, height);
      ghost var u, f := dirty, full;
      MarkDirty(q);
      if !old(full) {
        ShiftedTwice(old(dirty), c, pixels, u, f, dirty, full);
      }
      forall i, j | 0 <= i < width && 0 <= j < height
        ensures Tracked(i, j)
      {
        if !q.Has(i, j) {
          assert old(Tracked(i, j));
          assert old@Moved(Tracked(i, j));
          assert old@Filled(Tracked(i, j));
        }
      }
    }

    /** gfx_scroll_up: whole rows, with their padding. */
    method ScrollUp(pixels: int, color: int)
      requires Valid()
      modifies this`dirty, this`full, back
      ensures Valid()
      ensures pixels > 0 ==> full && forall j, i :: 0 <= j < height && 0 <= i < width ==>
                back[j, i] == if j + pixels < height then old(back[j + pixels, i]) else color
    {
      hide Covered, AllOn;
      if pixels <= 0 {
        return;
      }
      if pixels >= height {
        Clear(color);
        return;
      }
      var rows := height - pixels;
      for y := 0 to rows
        invariant Ok()
        invariant forall j, i :: 0 <= j < height && 0 <= i < pitch ==>
                    back[j, i] == if j < y then old(back[j + pixels, i]) else old(back[j, i])
      {
        MoveRow(y + pixels, y, 0, pitch);
      }
      FillRect(Rect(0, rows, width, pixels), color);
      full := true;
    }

    /** Copies part of a row to the screen. */
    method CopyLine(y: nat, x: nat, w: nat)
      requires Ok() && y < height && x + w <= width
      modifies front
      ensures forall j, i :: 0 <= j < height && 0 <= i < pitch ==>
                front[j, i] == if j == y && x <= i < x + w then back[j, i] else old(front[j, i])
    {
      hide AllOn;
      for k := 0 to w
        invariant forall j, i :: 0 <= j < height && 0 <= i < pitch ==>
                    front[j, i] == if j == y && x <= i < x + k then back[j, i] else old(front[j, i])
      {
        front[y, x + k] := back[y, x + k];
      }
    }

    /** gfx_swap_buffers. */
    method Swap(force: bool)
      requires Valid()
      modifies this`dirty, this`full, front
      ensures Valid() && dirty == [] && !full
      ensures forall j, i :: 0 <= j < height && 0 <= i < width ==> front[j, i] == back[j, i]
    {
      hide Covered, AllOn, OnScreen;
      if !(full || force) && |dirty| == 0 {
        NothingCovered(dirty);
        forall j, i | 0 <= j < height && 0 <= i < width
          ensures front[j, i] == back[j, i]
        {
          assert Tracked(i, j);
        }
        return;
      }
      if full || force {
        for y := 0 to height
          invariant Ok()
          invariant forall j, i :: 0 <= j < y && 0 <= i < width ==> front[j, i] == back[j, i]
        {
          CopyLine(y, 0, width);
        }
      } else {
        ghost var s := dirty;
        for k := 0 to |dirty|
          invariant dirty == s && Ok() && !full
          invariant forall j, i :: 0 <= j < height && 0 <= i < width ==>
                      front[j, i] == back[j, i] || front[j, i] == old(front[j, i])
          invariant forall m, j, i :: 0 <= m < k && 0 <= j < height && 0 <= i < width && s[m].Has(i, j) ==>
                    front[j, i] == back[j, i]
        {
          CopyRect(dirty[k]);
        }
        forall j, i | 0 <= j < height && 0 <= i < width
          ensures front[j, i] == back[j, i]
        {
          assert old(Tracked(i, j));
          if Covered(s, i, j) {
            CoveredBy(s, i, j);
          }
        }
      }
      dirty := [];
      full := false;
      NoRects(width, height);
    }

    /** One rectangle of gfx_swap_buffers. */
    method CopyRect(r: Rect)
      requires Ok()
      modifies front
      ensures forall j, i :: 0 <= j < height && 0 <= i < width ==>
                front[j, i] == if r.Has(i, j) then back[j, i] else old(front[j, i])
    {
      hide AllOn;
      var x1, y1 := Max(r.x, 0), Max(r.y, 0);
      var x2, y2 := Min(r.Right() - 1, width - 1), Min(r.Bottom() - 1, height - 1);
      var w := x2 - x1 + 1;
      if w <= 0 {
        return;
      }
      var y := y1;
      while y <= y2
        invariant y1 <= y
        invariant forall j, i :: 0 <= j < height && 0 <= i < width ==>
                    front[j, i] == if y1 <= j < y && j <= y2 && x1 <= i <= x2 then back[j, i] else old(front[j, i])
        decreases y2 - y
      {
        CopyLine(y, x1, w);
        y := y + 1;
      }
    }
  }

  /** What gfx_scroll_up_rect leaves at (i, j), from the old pixel and the one `pixels` below. */
  function Scrolled(r: Rect, pixels: int, color: int, width: nat, height: nat, j: int, i: int, here: int,
                    below: int): int
    requires width <= INT_MAX && height <= INT_MAX
  {
    var c := Clip(r, width, height);
    if c.None? || !c.value.Has(i, j) then here
    else if j + pixels < c.value.Bottom() then below else color
  }

  lemma ClipBounds(r: Rect, sw: nat, sh: nat)
    requires sw <= INT_MAX && sh <= INT_MAX
    ensures var c := Clip(r, sw, sh);
            c.Some? ==>
              0 <= c.value.x && 0 <= c.value.y && 0 < c.value.w && 0 < c.value.h && c.value.Right() <= sw &&
              c.value.Bottom() <= sh
  {
  }

  lemma NothingCovered(s: seq<Rect>)
    requires |s| == 0
    ensures forall px, py :: !Covered(s, px, py)
  {
  }

  lemma CoveredBy(s: seq<Rect>, px: int, py: int)
    requires Covered(s, px, py)
    ensures exists k :: 0 <= k < |s| && s[k].Has(px, py)
  {
  }

  lemma NoRects(sw: int, sh: int)
    ensures AllOn([], sw, sh)
  {
  }

  lemma RecordsFor(s: seq<Rect>, r: Rect, t: seq<Rect>)
    requires Records(s, r, t)
    ensures forall px, py :: Covered(s, px, py) || r.Has(px, py) ==> Covered(t, px, py)
  {
  }

  lemma MergedShape(s: seq<Rect>, i: nat, j: nat)
    requires i < j < |s|
    ensures |Merged(s, i, j)| == |s| - 1 && Merged(s, i, j)[i] == Union(s[i], s[j])
  {
  }
}
