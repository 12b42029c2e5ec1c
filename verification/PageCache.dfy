/** The VFS page cache: 512 write-back pages shared by all files, least recently used first out. It is
    proved to agree with plain byte sequences, one per file. */
module PageCache {

  const PAGE: nat := 4096
  const SLOTS: nat := 512

  type Octet = b: int | 0 <= b < 256

  /** A file: its size as the VFS knows it, and what is on storage. */
  datatype File = File(size: nat, store: seq<Octet>)

  datatype Entry = Entry(valid: bool, file: nat, page: nat, data: seq<Octet>, dirty: bool, last: nat)

  /** Storage reads as zero where it was never written. */
  function StoreAt(store: seq<Octet>, o: nat): Octet {
    if o < |store| then store[o] else 0
  }

  /** The backend's write. */
  function Put(store: seq<Octet>, off: nat, d: seq<Octet>): (r: seq<Octet>)
    ensures forall o: nat :: StoreAt(r, o) == if off <= o < off + |d| then d[o - off] else StoreAt(store, o)
  {
    seq(if |store| < off + |d| then off + |d| else |store|,
        o requires 0 <= o => if off <= o < off + |d| then d[o - off] else StoreAt(store, o))
  }

  /** The page buffer pc_get_page fills: storage up to the end of the file, then zeros. */
  function LoadPage(file: File, p: nat): (d: seq<Octet>)
    ensures |d| == PAGE
    ensures forall o: nat :: o / PAGE == p && o < file.size ==> d[o % PAGE] == StoreAt(file.store, o)
  {
    var d := LoadBytes(file, PAGE * p, PAGE);
    assert forall o: nat :: o / PAGE == p ==> o == PAGE * p + o % PAGE;
    d
  }

  function LoadBytes(file: File, off: nat, n: nat): (d: seq<Octet>)
    ensures |d| == n && forall k :: 0 <= k < n ==> d[k] == LoadByte(file, off + k)
  {
    if n == 0 then [] else LoadBytes(file, off, n - 1) + [LoadByte(file, off + n - 1)]
  }

  function LoadByte(file: File, o: nat): Octet {
    if o < file.size then StoreAt(file.store, o) else 0
  }

  /** Entry e caches page p of file f: pc_match. */
  predicate Caches(e: Entry, f: nat, p: nat) {
    e.valid && e.file == f && e.page == p
  }

  /** Some dirty entry caches the page. */
  ghost predicate DirtyPage(es: seq<Entry>, f: nat, p: nat) {
    exists i :: 0 <= i < |es| && Caches(es[i], f, p) && es[i].dirty
  }

  /** `plain` is what the files hold as far as their users can tell. */
  datatype State = State(files: map<nat, File>, es: seq<Entry>, plain: map<nat, seq<Octet>>)

  ghost predicate Shape(s: State) {
    && |s.es| == SLOTS && s.files.Keys == s.plain.Keys
    && (forall f :: f in s.plain ==> |s.plain[f]| == s.files[f].size)
    && (forall i :: 0 <= i < |s.es| ==> |s.es[i].data| == PAGE)
    && (forall i :: 0 <= i < |s.es| && s.es[i].valid ==> s.es[i].file in s.plain)
  }

  /** No page is cached twice. */
  ghost predicate Unique(es: seq<Entry>) {
    forall i, j :: 0 <= i < j < |es| && es[i].valid ==> !Caches(es[j], es[i].file, es[i].page)
  }

  /** The entry holds the file's bytes. */
  ghost predicate Holds(e: Entry, s: seq<Octet>)
    requires |e.data| == PAGE
  {
    forall o :: 0 <= o < |s| && o / PAGE == e.page ==> e.data[o % PAGE] == s[o]
  }

  ghost predicate Cached(s: State)
    requires Shape(s)
  {
    forall i :: 0 <= i < |s.es| && s.es[i].valid ==> Holds(s.es[i], s.plain[s.es[i].file])
  }

  /** Pages that are not dirty are on storage. */
  ghost predicate Stored(s: State)
    requires Shape(s)
  {
    forall f, o :: f in s.plain && 0 <= o < |s.plain[f]| && !DirtyPage(s.es, f, o / PAGE) ==>
      StoreAt(s.files[f].store, o) == s.plain[f][o]
  }

  ghost predicate Inv(s: State) {
    Shape(s) && Unique(s.es) && Cached(s) && Stored(s)
  }

  /** Changing slot r in a way that keeps what it caches. */
  lemma SamePages(es: seq<Entry>, r: nat, e: Entry)
    requires r < |es| && (forall f, p :: Caches(es[r], f, p) && es[r].dirty <==> Caches(e, f, p) && e.dirty)
    ensures forall f, p :: DirtyPage(es[r := e], f, p) <==> DirtyPage(es, f, p)
  {
    var es' := es[r := e];
    forall f, p | DirtyPage(es, f, p)
      ensures DirtyPage(es', f, p)
    {
      var i :| 0 <= i < |es| && Caches(es[i], f, p) && es[i].dirty;
      assert Caches(es'[i], f, p) && es'[i].dirty;
    }
    forall f, p | DirtyPage(es', f, p)
      ensures DirtyPage(es, f, p)
    {
      var i :| 0 <= i < |es'| && Caches(es'[i], f, p) && es'[i].dirty;
      assert Caches(es[i], f, p) && es[i].dirty;
    }
  }

  /** A new access time changes nothing else. */
  lemma TouchKeeps(s: State, r: nat, tick: nat)
    requires Inv(s) && r < |s.es|
    ensures Inv(s.(es := s.es[r := s.es[r].(last := tick)]))
  {
    hide DirtyPage;
    SamePages(s.es, r, s.es[r].(last := tick));
  }

  /** What pc_flush_entry_unlocked writes to storage. */
  function Flushed(file: File, e: Entry): (r: File)
    requires |e.data| == PAGE
    ensures r.size == file.size
    ensures forall o: nat :: o < file.size ==>
              StoreAt(r.store, o) == if o / PAGE == e.page then e.data[o % PAGE] else StoreAt(file.store, o)
    ensures forall o: nat :: o >= file.size ==> StoreAt(r.store, o) == StoreAt(file.store, o)
  {
    var off := PAGE * e.page;
    if off >= file.size then file
    else
      var n := if off + PAGE > file.size then file.size - off else PAGE;
      var r := file.(store := Put(file.store, off, e.data[..n]));
      assert forall o: nat :: o < file.size && o / PAGE == e.page ==> o - off == o % PAGE;
      r
  }

  lemma FlushKeeps(s: State, i: nat)
    requires Inv(s) && i < |s.es| && s.es[i].valid
    ensures var e := s.es[i];
            Inv(s.(files := s.files[e.file := Flushed(s.files[e.file], e)], es := s.es[i := e.(dirty := false)]))
  {
    hide Flushed, DirtyPage;
    var e := s.es[i];
    var t := s.(files := s.files[e.file := Flushed(s.files[e.file], e)], es := s.es[i := e.(dirty := false)]);
    forall f, o | f in t.plain && 0 <= o < |t.plain[f]| && !DirtyPage(t.es, f, o / PAGE)
      ensures StoreAt(t.files[f].store, o) == t.plain[f][o]
    {
      if f != e.file || o / PAGE != e.page {
        OtherDirty(s.es, i, e.(dirty := false), f, o / PAGE);
      } else {
        assert Holds(e, s.plain[f]);
      }
    }
  }

  lemma OtherDirty(es: seq<Entry>, r: nat, e: Entry, f: nat, p: nat)
    requires r < |es| && !(Caches(es[r], f, p) && es[r].dirty) && !(Caches(e, f, p) && e.dirty)
    ensures DirtyPage(es[r := e], f, p) <==> DirtyPage(es, f, p)
  {
    var es' := es[r := e];
    if DirtyPage(es, f, p) {
      var i :| 0 <= i < |es| && Caches(es[i], f, p) && es[i].dirty;
      assert Caches(es'[i], f, p) && es'[i].dirty;
    }
    if DirtyPage(es', f, p) {
      var i :| 0 <= i < |es'| && Caches(es'[i], f, p) && es'[i].dirty;
      assert Caches(es[i], f, p) && es[i].dirty;
    }
  }

  /** Dropping a page that is not dirty loses nothing. */
  lemma DropKeeps(s: State, r: nat)
    requires Inv(s) && r < |s.es| && !(s.es[r].valid && s.es[r].dirty)
    ensures Inv(s.(es := s.es[r := s.es[r].(valid := false)]))
  {
    hide DirtyPage;
    SamePages(s.es, r, s.es[r].(valid := false));
  }

  /** Nothing caches the page. */
  ghost predicate Absent(es: seq<Entry>, f: nat, p: nat) {
    forall i :: 0 <= i < |es| ==> !Caches(es[i], f, p)
  }

  /** A page that is not cached reads from storage as the file's bytes. */
  lemma LoadHolds(s: State, f: nat, p: nat, e: Entry)
    requires Inv(s) && f in s.plain && Absent(s.es, f, p) && e.page == p && e.data == LoadPage(s.files[f], p)
    ensures Holds(e, s.plain[f])
  {
    hide LoadPage, DirtyPage;
    AbsentClean(s.es, f, p);
    forall o | 0 <= o < |s.plain[f]| && o / PAGE == p
      ensures e.data[o % PAGE] == s.plain[f][o]
    {
      assert !DirtyPage(s.es, f, o / PAGE);
    }
  }

  /** A page with the file's bytes is put into a free slot. */
  lemma LoadKeeps(s: State, r: nat, e: Entry)
    requires Inv(s) && r < |s.es| && !s.es[r].valid && e.file in s.plain && Absent(s.es, e.file, e.page)
    requires !e.dirty && |e.data| == PAGE && Holds(e, s.plain[e.file])
    ensures Inv(s.(es := s.es[r := e]))
  {
    hide DirtyPage, Holds;
    SamePages(s.es, r, e);
  }

  lemma AbsentClean(es: seq<Entry>, f: nat, p: nat)
    requires Absent(es, f, p)
    ensures !DirtyPage(es, f, p)
  {
  }

  /** The bytes d written at off, as far as the sequence goes. */
  function Over(s: seq<Octet>, off: nat, d: seq<Octet>): (r: seq<Octet>)
    ensures |r| == |s|
    ensures forall o :: 0 <= o < |s| ==> r[o] == if off <= o < off + |d| then d[o - off] else s[o]
  {
    seq(|s|, o requires 0 <= o < |s| => if off <= o < off + |d| then d[o - off] else s[o])
  }

  /** A write from inside the file, or from its end. */
  function Written(s: seq<Octet>, off: nat, d: seq<Octet>): (r: seq<Octet>)
    requires off <= |s|
  {
    if off + |d| <= |s| then Over(s, off, d) else s[..off] + d
  }

  /** The entry after memcpy of d to page offset po. */
  function Poked(e: Entry, po: nat, d: seq<Octet>, tick: nat): Entry {
    e.(data := Over(e.data, po, d), dirty := true, last := tick)
  }

  lemma PokeKeeps(s: State, r: nat, po: nat, d: seq<Octet>, tick: nat)
    requires Inv(s) && r < |s.es| && s.es[r].valid && po + |d| <= PAGE
    ensures var e := s.es[r];
            Inv(s.(es := s.es[r := Poked(e, po, d, tick)],
                   plain := s.plain[e.file := Over(s.plain[e.file], PAGE * e.page + po, d)]))
  {
    hide DirtyPage, Over, Holds, StoreAt;
    var e := s.es[r];
    var off := PAGE * e.page + po;
    var t := s.(es := s.es[r := Poked(e, po, d, tick)], plain := s.plain[e.file := Over(s.plain[e.file], off, d)]);
    forall i | 0 <= i < |t.es| && t.es[i].valid
      ensures Holds(t.es[i], t.plain[t.es[i].file])
    {
      PokeHolds(s, r, po, d, tick, i);
    }
    PokeStored(s, r, po, d, tick);
  }

  lemma PokeStored(s: State, r: nat, po: nat, d: seq<Octet>, tick: nat)
    requires Inv(s) && r < |s.es| && s.es[r].valid && po + |d| <= PAGE
    ensures var e := s.es[r];
            var t := s.(es := s.es[r := Poked(e, po, d, tick)],
                        plain := s.plain[e.file := Over(s.plain[e.file], PAGE * e.page + po, d)]);
            Shape(t) && Stored(t)
  {
    hide DirtyPage, Over, Holds, StoreAt, Unique, Cached;
    var e := s.es[r];
    var off := PAGE * e.page + po;
    var e' := Poked(e, po, d, tick);
    var t := s.(es := s.es[r := e'], plain := s.plain[e.file := Over(s.plain[e.file], off, d)]);
    forall f, o | f in t.plain && 0 <= o < |t.plain[f]| && !DirtyPage(t.es, f, o / PAGE)
      ensures StoreAt(t.files[f].store, o) == t.plain[f][o]
    {
      if f == e.file && o / PAGE == e.page {
        NowDirty(t.es, r);
      } else {
        OtherDirty(s.es, r, e', f, o / PAGE);
      }
    }
  }

  lemma NowDirty(es: seq<Entry>, r: nat)
    requires r < |es| && es[r].valid && es[r].dirty
    ensures DirtyPage(es, es[r].file, es[r].page)
  {
    assert Caches(es[r], es[r].file, es[r].page);
  }

  lemma PokeFills(s: State, r: nat, t0: nat, po: nat, d: seq<Octet>, tick: nat)
    requires r < |s.es| && s.es[r].valid && |s.es[r].data| == PAGE && po + |d| <= PAGE && t0 < tick
    ensures Fills(s.es[r := Poked(s.es[r], po, d, tick)], r, t0, s.es[r].file, PAGE * s.es[r].page + po, d)
  {
    hide Over;
    var e := s.es[r];
    var es := s.es[r := Poked(e, po, d, tick)];
    var off := PAGE * e.page + po;
    forall k | 0 <= k < |d|
      ensures PendingAt(es, r, t0, e.file, off + k, d[k])
    {
      assert (off + k) / PAGE == e.page && (off + k) % PAGE == po + k;
    }
  }

  lemma PokeHolds(s: State, r: nat, po: nat, d: seq<Octet>, tick: nat, i: nat)
    requires Inv(s) && r < |s.es| && s.es[r].valid && po + |d| <= PAGE && i < |s.es| && s.es[i].valid
    ensures var e := s.es[r];
            var x := if i == r then Poked(e, po, d, tick) else s.es[i];
            Holds(x, if x.file == e.file then Over(s.plain[e.file], PAGE * e.page + po, d) else s.plain[x.file])
  {
    hide DirtyPage, Over, Stored, Holds;
    var e, x := s.es[r], s.es[i];
    if i == r {
      OwnPoke(e, s.plain[e.file], po, d, tick);
    } else if x.file == e.file {
      SomewhereElse(s, i, r);
      OtherPoke(x, s.plain[e.file], e.page, po, d);
    }
  }

  lemma SomewhereElse(s: State, i: nat, r: nat)
    requires Unique(s.es) && i < |s.es| && r < |s.es| && i != r && s.es[i].valid && s.es[r].valid &&
             s.es[i].file == s.es[r].file
    ensures s.es[i].page != s.es[r].page
  {
    assert i < r ==> !Caches(s.es[r], s.es[i].file, s.es[i].page);
    assert r < i ==> !Caches(s.es[i], s.es[r].file, s.es[r].page);
  }

  lemma OwnPoke(e: Entry, s: seq<Octet>, po: nat, d: seq<Octet>, tick: nat)
    requires |e.data| == PAGE && Holds(e, s) && po + |d| <= PAGE
    ensures Holds(Poked(e, po, d, tick), Over(s, PAGE * e.page + po, d))
  {
    hide Over;
    var x, t, off := Poked(e, po, d, tick), Over(s, PAGE * e.page + po, d), PAGE * e.page + po;
    forall o | 0 <= o < |t| && o / PAGE == e.page
      ensures x.data[o % PAGE] == t[o]
    {
      assert o == PAGE * e.page + o % PAGE;
      assert e.data[o % PAGE] == s[o];
    }
  }

  lemma OtherPoke(x: Entry, s: seq<Octet>, page: nat, po: nat, d: seq<Octet>)
    requires |x.data| == PAGE && Holds(x, s) && po + |d| <= PAGE && x.page != page
    ensures Holds(x, Over(s, PAGE * page + po, d))
  {
    hide Over;
    var t := Over(s, PAGE * page + po, d);
    forall o | 0 <= o < |t| && o / PAGE == x.page
      ensures x.data[o % PAGE] == t[o]
    {
      assert x.data[o % PAGE] == s[o];
    }
  }

  /** A dirty byte in the cache, in a page used since t0. */
  ghost predicate Pending(es: seq<Entry>, t0: nat, f: nat, o: nat, v: Octet) {
    exists i :: PendingAt(es, i, t0, f, o, v)
  }

  ghost predicate PendingAt(es: seq<Entry>, i: int, t0: nat, f: nat, o: nat, v: Octet) {
    && 0 <= i < |es| && Caches(es[i], f, o / PAGE) && es[i].dirty && es[i].last > t0
    && |es[i].data| == PAGE && es[i].data[o % PAGE] == v
  }

  /** A byte past the end of the file is in the cache, or its page is not and storage has it. */
  ghost predicate Ahead(s: State, t0: nat, f: nat, o: nat, v: Octet)
    requires f in s.files
  {
    Pending(s.es, t0, f, o, v) || (Absent(s.es, f, o / PAGE) && StoreAt(s.files[f].store, o) == v)
  }

  /** Raising the size of a file makes what is there part of it. */
  lemma GrowKeeps(s: State, t0: nat, f: nat, tail: seq<Octet>)
    requires Inv(s) && f in s.plain
    requires forall k :: 0 <= k < |tail| ==> Ahead(s, t0, f, |s.plain[f]| + k, tail[k])
    ensures Inv(s.(files := s.files[f := s.files[f].(size := |s.plain[f]| + |tail|)],
                   plain := s.plain[f := s.plain[f] + tail]))
  {
    hide DirtyPage;
    var t := s.(files := s.files[f := s.files[f].(size := |s.plain[f]| + |tail|)],
                plain := s.plain[f := s.plain[f] + tail]);
    var n := |s.plain[f]|;
    forall i | 0 <= i < |t.es| && t.es[i].valid
      ensures Holds(t.es[i], t.plain[t.es[i].file])
    {
      GrowHolds(s, t0, f, tail, i);
    }
    forall g, o | g in t.plain && 0 <= o < |t.plain[g]| && !DirtyPage(t.es, g, o / PAGE)
      ensures StoreAt(t.files[g].store, o) == t.plain[g][o]
    {
      if g == f && o >= n {
        assert Ahead(s, t0, f, n + (o - n), tail[o - n]);
        if Pending(s.es, t0, f, o, tail[o - n]) {
          PendingDirty(s.es, t0, f, o, tail[o - n]);
        }
      }
    }
  }

  lemma PendingDirty(es: seq<Entry>, t0: nat, f: nat, o: nat, v: Octet)
    requires Pending(es, t0, f, o, v)
    ensures DirtyPage(es, f, o / PAGE)
  {
  }

  lemma GrowHolds(s: State, t0: nat, f: nat, tail: seq<Octet>, i: nat)
    requires Inv(s) && f in s.plain && i < |s.es| && s.es[i].valid
    requires forall k :: 0 <= k < |tail| ==> Ahead(s, t0, f, |s.plain[f]| + k, tail[k])
    ensures Holds(s.es[i], if s.es[i].file == f then s.plain[f] + tail else s.plain[s.es[i].file])
  {
    hide DirtyPage, Stored;
    var e, n := s.es[i], |s.plain[f]|;
    assert Holds(e, s.plain[e.file]);
    if e.file == f {
      forall o | 0 <= o < n + |tail| && o / PAGE == e.page
        ensures e.data[o % PAGE] == (s.plain[f] + tail)[o]
      {
        if o >= n {
          assert Ahead(s, t0, f, n + (o - n), tail[o - n]);
          assert Caches(e, f, o / PAGE);
          var j :| PendingAt(s.es, j, t0, f, o, tail[o - n]);
          assert j == i;
        }
      }
    }
  }

  /** Writing back changes no size, and nothing on storage past the end of a file. */
  ghost predicate Frame(a: map<nat, File>, b: map<nat, File>) {
    && a.Keys == b.Keys
    && (forall f :: f in a ==> b[f].size == a[f].size)
    && (forall f, o: nat :: f in a && o >= a[f].size ==> StoreAt(b[f].store, o) == StoreAt(a[f].store, o))
  }

  lemma FrameSame(a: map<nat, File>)
    ensures Frame(a, a)
  {
  }

  lemma FrameTrans(a: map<nat, File>, b: map<nat, File>, c: map<nat, File>)
    requires Frame(a, b) && Frame(b, c)
    ensures Frame(a, c)
  {
  }

  lemma FrameFile(a: map<nat, File>, b: map<nat, File>, f: nat)
    requires Frame(a, b) && f in a
    ensures f in b && b[f].size == a[f].size
    ensures forall o: nat :: o >= a[f].size ==> StoreAt(b[f].store, o) == StoreAt(a[f].store, o)
  {
  }

  // Which page goes.

  /** The first free slot, or else the first of the least recently used. */
  ghost predicate Victim(es: seq<Entry>, v: nat) {
    && v < |es|
    && if es[v].valid then
         && (forall k :: 0 <= k < |es| ==> es[k].valid && es[k].last >= es[v].last)
         && (forall k :: 0 <= k < v ==> es[k].last > es[v].last)
       else
         forall k :: 0 <= k < v ==> es[k].valid
  }

  lemma VictimUnique(es: seq<Entry>, v: nat, w: nat)
    requires Victim(es, v) && Victim(es, w)
    ensures v == w
  {
  }

  /** The victim does not depend on what is dirty. */
  lemma VictimClean(es: seq<Entry>, v: nat, d: bool, w: nat)
    requires v < |es| && Victim(es[v := es[v].(dirty := d)], w)
    ensures Victim(es, w)
  {
    var es' := es[v := es[v].(dirty := d)];
    assert forall k :: 0 <= k < |es| ==> es[k].valid == es'[k].valid && es[k].last == es'[k].last;
  }

  function DirtyCount(es: seq<Entry>): nat {
    if es == [] then 0 else DirtyCount(es[..|es| - 1]) + if es[|es| - 1].valid && es[|es| - 1].dirty then 1 else 0
  }

  lemma {:induction false} DirtyCountLess(es: seq<Entry>, v: nat)
    requires v < |es| && es[v].valid && es[v].dirty
    ensures DirtyCount(es[v := es[v].(dirty := false)]) < DirtyCount(es)
  {
    var n := |es| - 1;
    var es' := es[v := es[v].(dirty := false)];
    if v < n {
      DirtyCountLess(es[..n], v);
      assert es'[..n] == es[..n][v := es[v].(dirty := false)];
    } else {
      assert es'[..n] == es[..n];
    }
  }

  lemma StillAbsent(es: seq<Entry>, es': seq<Entry>, f: nat, p: nat, r: nat)
    requires |es'| == |es| && r < |es| && Absent(es, f, p) && !es'[r].valid
    requires forall k :: 0 <= k < |es| && k != r ==> es'[k] == es[k]
    ensures Absent(es', f, p)
  {
  }

  // A write in progress.

  /** The page is in the cache and was used since t0. */
  ghost predicate Present(es: seq<Entry>, t0: nat, f: nat, p: nat) {
    exists i :: 0 <= i < |es| && Caches(es[i], f, p) && es[i].last > t0
  }

  predicate Used(e: Entry, t0: nat) {
    e.valid && e.last > t0
  }

  /** The pages used since t0 are pages of this write, in [first, bound), in the order of their use; if one
      is in the cache, so are those after it. */
  ghost predicate Recent(es: seq<Entry>, t0: nat, f: nat, first: nat, bound: nat) {
    && (forall i :: 0 <= i < |es| && Used(es[i], t0) ==> es[i].file == f && first <= es[i].page < bound)
    && (forall i, k ::
          0 <= i < |es| && 0 <= k < |es| && Used(es[i], t0) && Used(es[k], t0) && es[i].page < es[k].page ==>
          es[i].last < es[k].last)
    && (forall i, p :: 0 <= i < |es| && Used(es[i], t0) && es[i].page < p < bound ==> Present(es, t0, f, p))
  }

  /** The page was pushed out by 512 later pages. */
  ghost predicate Lost(es: seq<Entry>, f: nat, p: nat, bound: nat) {
    Absent(es, f, p) && p + SLOTS < bound
  }

  /** The bytes written past the end of the file so far. */
  ghost predicate InFlight(es: seq<Entry>, t0: nat, f: nat, size: nat, off: nat, d: seq<Octet>, bound: nat)
    requires off <= size
  {
    forall k :: size - off <= k < |d| ==> Pending(es, t0, f, off + k, d[k]) || Lost(es, f, (off + k) / PAGE, bound)
  }

  function FirstPage(off: nat): nat { off / PAGE }

  function LastPage(off: nat, n: nat): nat
    requires n > 0
  {
    (off + n - 1) / PAGE
  }

  lemma {:induction false} DistinctBound(ps: seq<nat>, lo: nat, hi: nat)
    requires lo <= hi && forall i :: 0 <= i < |ps| ==> lo <= ps[i] < hi
    requires forall i, j :: 0 <= i < j < |ps| ==> ps[i] != ps[j]
    ensures |ps| <= hi - lo
    decreases hi - lo
  {
    assert |ps| == 0 || lo <= ps[0] < hi;
    if lo < hi {
      if i :| 0 <= i < |ps| && ps[i] == hi - 1 {
        var qs := ps[..i] + ps[i + 1..];
        DistinctBound(qs, lo, hi - 1);
      } else {
        DistinctBound(ps, lo, hi - 1);
      }
    }
  }

  /** A page of this write is the victim only after 512 later ones. */
  lemma VictimFar(es: seq<Entry>, r: nat, t0: nat, f: nat, first: nat, bound: nat)
    requires |es| == SLOTS && Unique(es) && Victim(es, r) && Recent(es, t0, f, first, bound) && Used(es[r], t0)
    ensures es[r].page + SLOTS <= bound
  {
    var q := es[r].page;
    var ps := seq(SLOTS, i requires 0 <= i < SLOTS => es[i].page);
    forall i, j | 0 <= i < j < SLOTS
      ensures ps[i] != ps[j]
    {
      assert !Caches(es[j], es[i].file, es[i].page);
    }
    DistinctBound(ps, q, bound);
  }

  /** The slots of n consecutive pages. */
  lemma {:induction false} SlotsOf(es: seq<Entry>, t0: nat, f: nat, q: nat, n: nat) returns (ss: seq<nat>)
    requires forall p :: q <= p < q + n ==> Present(es, t0, f, p)
    ensures |ss| == n && forall j :: 0 <= j < n ==> ss[j] < |es| && Caches(es[ss[j]], f, q + j)
  {
    if n == 0 {
      ss := [];
    } else {
      ss := SlotsOf(es, t0, f, q, n - 1);
      assert Present(es, t0, f, q + n - 1);
      var i :| 0 <= i < |es| && Caches(es[i], f, q + n - 1) && es[i].last > t0;
      ss := ss + [i];
    }
  }

  /** A page with 512 later ones is not in the cache. */
  lemma FarNotPresent(es: seq<Entry>, t0: nat, f: nat, first: nat, bound: nat, i: nat)
    requires |es| == SLOTS && Recent(es, t0, f, first, bound) && i < |es| && Used(es[i], t0)
    ensures es[i].page + SLOTS >= bound
  {
    var q := es[i].page;
    if q + SLOTS < bound {
      assert Caches(es[i], f, q);
      var ss := SlotsOf(es, t0, f, q, SLOTS + 1);
      DistinctBound(ss, 0, SLOTS);
    }
  }

  /** Slot r took page c; everything else stayed. */
  ghost predicate Took(es: seq<Entry>, es': seq<Entry>, r: nat, f: nat, c: nat, tick: nat) {
    && |es'| == |es| && r < |es| && Caches(es'[r], f, c) && es'[r].last == tick
    && (forall k :: 0 <= k < |es| && k != r ==> es'[k] == es[k])
    && (forall k :: 0 <= k < |es| ==> es[k].last < tick)
    && (Caches(es[r], f, c) || Victim(es, r))
  }

  /** Slot r holds the bytes d of the file at off, dirty. */
  ghost predicate Fills(es: seq<Entry>, r: nat, t0: nat, f: nat, off: nat, d: seq<Octet>) {
    forall k :: 0 <= k < |d| ==> PendingAt(es, r, t0, f, off + k, d[k])
  }

  lemma StepRecent(es: seq<Entry>, es': seq<Entry>, r: nat, t0: nat, f: nat, first: nat, c: nat, tick: nat)
    requires |es| == SLOTS && Unique(es) && Recent(es, t0, f, first, c) && Took(es, es', r, f, c, tick) &&
             first <= c && t0 < tick
    ensures Recent(es', t0, f, first, c + 1)
  {
    hide Present;
    forall i, p | 0 <= i < |es'| && Used(es'[i], t0) && es'[i].page < p < c + 1
      ensures Present(es', t0, f, p)
    {
      if p == c {
        NowPresent(es', t0, f, c, r);
      } else {
        assert i != r && Present(es, t0, f, p);
        StillPresent(es, es', r, t0, f, first, c, tick, i, p);
      }
    }
  }

  lemma NowPresent(es: seq<Entry>, t0: nat, f: nat, c: nat, r: nat)
    requires r < |es| && Caches(es[r], f, c) && es[r].last > t0
    ensures Present(es, t0, f, c)
  {
  }

  /** A page after one that stayed stays: the victim is the earliest page. */
  lemma StillPresent(es: seq<Entry>, es': seq<Entry>, r: nat, t0: nat, f: nat, first: nat, c: nat, tick: nat, i: nat,
                     p: nat)
    requires Recent(es, t0, f, first, c) && Took(es, es', r, f, c, tick) && Unique(es)
    requires i < |es| && i != r && Used(es[i], t0) && es[i].page < p < c && Present(es, t0, f, p)
    ensures Present(es', t0, f, p)
  {
    var j :| 0 <= j < |es| && Caches(es[j], f, p) && es[j].last > t0;
    assert Used(es[j], t0) && es[i].last < es[j].last;
    assert j != r;
    NowPresent(es', t0, f, p, j);
  }

  lemma StepInFlight(es: seq<Entry>, es': seq<Entry>, r: nat, t0: nat, f: nat, size: nat, off: nat, c: nat, tick: nat,
                     d: seq<Octet>, d': seq<Octet>)
    requires |es| == SLOTS && Unique(es) && off <= size && Recent(es, t0, f, FirstPage(off), c) &&
             Took(es, es', r, f, c, tick)
    requires off + |d| <= c * PAGE || |d| == 0
    requires InFlight(es, t0, f, size, off, d, c) && Fills(es', r, t0, f, off + |d|, d')
    ensures InFlight(es', t0, f, size, off, d + d', c + 1)
  {
    hide Victim, Recent, Lost, Pending, Took;
    forall k | size - off <= k < |d + d'|
      ensures Pending(es', t0, f, off + k, (d + d')[k]) || Lost(es', f, (off + k) / PAGE, c + 1)
    {
      if k < |d| {
        if Pending(es, t0, f, off + k, d[k]) {
          StepPending(es, es', r, t0, f, FirstPage(off), c, tick, off + k, d[k]);
        } else {
          StepLost(es, es', r, f, c, tick, (off + k) / PAGE);
        }
      } else {
        assert PendingAt(es', r, t0, f, off + |d| + (k - |d|), d'[k - |d|]);
        IsPending(es', r, t0, f, off + k, d'[k - |d|]);
      }
    }
  }

  lemma IsPending(es: seq<Entry>, r: nat, t0: nat, f: nat, o: nat, v: Octet)
    requires PendingAt(es, r, t0, f, o, v)
    ensures Pending(es, t0, f, o, v)
  {
  }

  lemma StepLost(es: seq<Entry>, es': seq<Entry>, r: nat, f: nat, c: nat, tick: nat, p: nat)
    requires Lost(es, f, p, c) && Took(es, es', r, f, c, tick) && p < c
    ensures Lost(es', f, p, c + 1)
  {
  }

  lemma StepPending(es: seq<Entry>, es': seq<Entry>, r: nat, t0: nat, f: nat, first: nat, c: nat, tick: nat, o: nat,
                    v: Octet)
    requires |es| == SLOTS && Unique(es) && Recent(es, t0, f, first, c) && Took(es, es', r, f, c, tick)
    requires o / PAGE < c && Pending(es, t0, f, o, v)
    ensures Pending(es', t0, f, o, v) || Lost(es', f, o / PAGE, c + 1)
  {
    hide Victim;
    var i :| PendingAt(es, i, t0, f, o, v);
    if i != r {
      IsPending(es', i, t0, f, o, v);
    } else {
      VictimFar(es, r, t0, f, first, c);
      forall k | 0 <= k < |es'|
        ensures !Caches(es'[k], f, o / PAGE)
      {
        assert k < r ==> !Caches(es[r], es[k].file, es[k].page) || !es[k].valid;
        assert r < k ==> !Caches(es[k], es[r].file, es[r].page);
      }
    }
  }

  // What a write leaves.

  /** The bytes past the old end of the file: a page followed by 512 others of the same write was already
      pushed out, with nothing written back, and reads as what storage had. */
  function TailByte(store: seq<Octet>, off: nat, d: seq<Octet>, o: nat): Octet
    requires off <= o < off + |d|
  {
    if o / PAGE + SLOTS <= LastPage(off, |d|) then StoreAt(store, o) else d[o - off]
  }

  function Tail(store: seq<Octet>, off: nat, d: seq<Octet>, size: nat, n: nat): (t: seq<Octet>)
    requires off <= size && size + n <= off + |d|
    ensures |t| == n && forall k :: 0 <= k < n ==> t[k] == TailByte(store, off, d, size + k)
  {
    if n == 0 then [] else Tail(store, off, d, size, n - 1) + [TailByte(store, off, d, size + n - 1)]
  }

  /** The file after vfs_write of d at off. */
  function Result(s: seq<Octet>, store: seq<Octet>, off: nat, d: seq<Octet>): seq<Octet>
    requires off <= |s|
  {
    if off + |d| <= |s| then Over(s, off, d) else Over(s, off, d) + Tail(store, off, d, |s|, off + |d| - |s|)
  }

  /** The write spans at most 512 pages, or those before the last 512 lie inside the old file. */
  predicate Safe(size: nat, off: nat, n: nat) {
    n == 0 || LastPage(off, n) < FirstPage(off) + SLOTS || (LastPage(off, n) + 1 - SLOTS) * PAGE <= size
  }

  /** A safe write leaves the file as written. */
  lemma SafeWrites(s: seq<Octet>, store: seq<Octet>, off: nat, d: seq<Octet>)
    requires off <= |s| && Safe(|s|, off, |d|)
    ensures Result(s, store, off, d) == Written(s, off, d)
  {
    hide Over;
    if off + |d| > |s| {
      var x, y := Result(s, store, off, d), Written(s, off, d);
      forall o | 0 <= o < |x|
        ensures x[o] == y[o]
      {
        if o >= |s| {
          NearPage(|s|, off, |d|, o);
        }
      }
    }
  }

  lemma NearPage(size: nat, off: nat, n: nat, o: nat)
    requires off <= size <= o < off + n && Safe(size, off, n)
    ensures o / PAGE + SLOTS > LastPage(off, n)
  {
  }

  /** Exactly the safe writes leave every file as written, whatever the data. */
  lemma SafeExactly(s: seq<Octet>, store: seq<Octet>, off: nat, n: nat)
    requires off <= |s|
    ensures (forall d: seq<Octet> :: |d| == n ==> Result(s, store, off, d) == Written(s, off, d)) <==> Safe(|s|, off, n)
  {
    hide Result, Written;
    if Safe(|s|, off, n) {
      forall d: seq<Octet> | |d| == n
        ensures Result(s, store, off, d) == Written(s, off, d)
      {
        SafeWrites(s, store, off, d);
      }
    } else {
      var d := Unlike(store, off, n);
      UnsafeLoses(s, store, off, d);
    }
  }

  /** Data that differs from storage everywhere. */
  function Unlike(store: seq<Octet>, off: nat, n: nat): (d: seq<Octet>)
    ensures |d| == n && forall k :: 0 <= k < n ==> d[k] != StoreAt(store, off + k)
  {
    if n == 0 then [] else Unlike(store, off, n - 1) + [if StoreAt(store, off + n - 1) == 0 then 1 else 0]
  }

  lemma UnsafeLoses(s: seq<Octet>, store: seq<Octet>, off: nat, d: seq<Octet>)
    requires off <= |s| && !Safe(|s|, off, |d|) && forall k :: 0 <= k < |d| ==> d[k] != StoreAt(store, off + k)
    ensures Result(s, store, off, d) != Written(s, off, d)
  {
    hide Over;
    var last := LastPage(off, |d|);
    var o := (last + 1 - SLOTS) * PAGE - 1;
    FarByte(|s|, off, |d|);
    assert Result(s, store, off, d)[o] == TailByte(store, off, d, |s| + (o - |s|)) == StoreAt(store, o);
    assert Written(s, off, d)[o] == d[o - off];
    assert d[o - off] != StoreAt(store, off + (o - off));
  }

  lemma FarByte(size: nat, off: nat, n: nat)
    requires off <= size && !Safe(size, off, n)
    ensures var o := (LastPage(off, n) + 1 - SLOTS) * PAGE - 1;
            size <= o < off + n && o / PAGE + SLOTS == LastPage(off, n)
  {
  }

  function EmptyEntry(): (e: Entry)
    ensures !e.valid && !e.dirty && e.last == 0 && |e.data| == PAGE
  {
    Entry(false, 0, 0, seq(PAGE, _ => 0), false, 0)
  }

  class Cache {
    const entries: array<Entry>
    var tick: nat
    var files: map<nat, File>
    ghost var plain: map<nat, seq<Octet>>

    ghost function S(): State
      reads this, entries
    {
      State(files, entries[..], plain)
    }

    ghost predicate Valid()
      reads this, entries
    {
      Inv(S()) && entries.Length == SLOTS && forall i :: 0 <= i < SLOTS ==> entries[i].last <= tick
    }

    /** The cache starts empty: every file reads as its storage. */
    constructor (files: map<nat, File>)
      ensures Valid() && fresh(entries) && this.files == files && plain.Keys == files.Keys
      ensures forall f :: f in plain ==> |plain[f]| == files[f].size
      ensures forall f, o :: f in plain && 0 <= o < |plain[f]| ==> plain[f][o] == StoreAt(files[f].store, o)
    {
      var none := EmptyEntry();
      entries := new Entry[SLOTS](_ => none);
      tick := 0;
      this.files := files;
      plain := map f | f in files :: LoadBytes(files[f], 0, files[f].size);
    }

    /** pc_find_locked. */
    method Find(f: nat, p: nat) returns (r: int)
      requires Valid()
      ensures r >= 0 ==> r < SLOTS && Caches(entries[r], f, p)
      ensures r < 0 ==> Absent(entries[..], f, p)
    {
      for i := 0 to SLOTS
        invariant forall k :: 0 <= k < i ==> !Caches(entries[k], f, p)
      {
        if Caches(entries[i], f, p) {
          return i;
        }
      }
      return -1;
    }

    /** pc_flush_entry_unlocked, when its buffer can be allocated. */
    method Flush(i: nat)
      requires Valid() && i < SLOTS
      modifies this`files, entries
      ensures Valid() && Frame(old(files), files)
      ensures entries[..] == old(entries[..])[i :=
                if old(entries[i].valid) then old(entries[i]).(dirty := false) else old(entries[i])]
    {
      hide Stored, Cached, Unique;
      var e := entries[i];
      if !e.valid || !e.dirty {
        return;
      }
      ghost var s := S();
      FlushKeeps(s, i);
      var file := files[e.file];
      var off := PAGE * e.page;
      entries[i] := e.(dirty := false);
      if off < file.size {
        var n := if off + PAGE > file.size then file.size - off else PAGE;
        files := files[e.file := file.(store := Put(file.store, off, e.data[..n]))];
      }
      assert entries[..] == s.es[i := e.(dirty := false)];
      assert files == s.files[e.file := Flushed(file, e)];
    }

    /** The choice of pc_evict_and_allocate_locked. */
    method Select() returns (v: nat)
      requires entries.Length == SLOTS
      ensures v < SLOTS && Victim(entries[..], v)
    {
      for i := 0 to SLOTS
        invariant forall k :: 0 <= k < i ==> entries[k].valid
      {
        if !entries[i].valid {
          return i;
        }
      }
      v := 0;
      for i := 1 to SLOTS
        invariant v < i
        invariant forall k :: 0 <= k < i ==> entries[k].last >= entries[v].last
        invariant forall k :: 0 <= k < v ==> entries[k].last > entries[v].last
      {
        if entries[i].last < entries[v].last {
          v := i;
        }
      }
    }

    /** pc_evict_and_allocate_locked: frees the slot of the victim, after writing it back. */
    method Evict() returns (r: nat)
      requires Valid()
      modifies this`files, entries
      ensures Valid() && Frame(old(files), files)
      ensures r < SLOTS && Victim(old(entries[..]), r) && !entries[r].valid
      ensures forall k :: 0 <= k < SLOTS && k != r ==> entries[k] == old(entries[k])
    {
      hide Stored, Cached, Unique, Victim, DirtyCount;
      ghost var es := entries[..];
      ghost var picked := -1;
      while true
        invariant Valid() && Frame(old(files), files)
        invariant picked == -1 ==> entries[..] == es
        invariant picked >= 0 ==>
                    picked < SLOTS && Victim(es, picked) && entries[..] == es[picked := es[picked].(dirty := false)]
        decreases DirtyCount(entries[..])
      {
        var v := Select();
        if picked >= 0 {
          VictimClean(es, picked, false, v);
          VictimUnique(es, v, picked);
        }
        if entries[v].valid && entries[v].dirty {
          DirtyCountLess(entries[..], v);
          Flush(v);
          picked := v;
        } else {
          DropKeeps(S(), v);
          ghost var was := entries[..];
          entries[v] := entries[v].(valid := false);
          assert entries[..] == was[v := was[v].(valid := false)];
          return v;
        }
      }
    }

    /** pc_get_page, when its buffer can be allocated. */
    method GetPage(f: nat, p: nat) returns (r: nat)
      requires Valid() && f in files
      modifies this`files, this`tick, entries
      ensures Valid() && Frame(old(files), files)
      ensures r < SLOTS && Caches(entries[r], f, p) && entries[r].last == tick > old(tick)
      ensures forall k :: 0 <= k < SLOTS && k != r ==> entries[k] == old(entries[k])
      ensures if old(Caches(entries[r], f, p)) then entries[r] == old(entries[r]).(last := tick)
              else Victim(old(entries[..]), r) && !entries[r].dirty
    {
      hide Stored, Cached, Unique, Victim, LoadPage;
      var i := Find(f, p);
      tick := tick + 1;
      if i >= 0 {
        ghost var s := S();
        TouchKeeps(s, i, tick);
        entries[i] := entries[i].(last := tick);
        assert entries[..] == s.es[i := s.es[i].(last := tick)];
        return i;
      }
      var e := Entry(true, f, p, LoadPage(files[f], p), false, tick);
      LoadHolds(S(), f, p, e);
      ghost var es := entries[..];
      r := Evict();
      StillAbsent(es, entries[..], f, p, r);
      ghost var s := S();
      LoadKeeps(s, r, e);
      entries[r] := e;
      assert entries[..] == s.es[r := entries[r]];
    }

    /** The body of the loop of vfs_read: a piece of one page. */
    method ReadChunk(f: nat, o: nat, count: nat) returns (d: seq<Octet>)
      requires Valid() && f in files && o % PAGE + count <= PAGE && o + count <= files[f].size
      modifies this`files, this`tick, entries
      ensures Valid() && Frame(old(files), files) && o + count <= |plain[f]| && d == plain[f][o..o + count]
    {
      hide Stored, Cached, Unique, Victim;
      var r := GetPage(f, o / PAGE);
      CopyOut(S(), r, o, count);
      d := entries[r].data[o % PAGE..o % PAGE + count];
    }

    /** vfs_read of a cached file: the bytes read, by which the descriptor's offset moves on. */
    method Read(f: nat, offset: nat, size: nat) returns (buf: seq<Octet>)
      requires Valid() && f in files
      modifies this`files, this`tick, entries
      ensures Valid()
      ensures buf == if offset >= |plain[f]| then []
                     else if offset + size > |plain[f]| then plain[f][offset..] else plain[f][offset..offset + size]
    {
      hide Inv, Frame;
      InvFacts(S());
      buf := [];
      if offset >= files[f].size {
        return;
      }
      var n := if offset + size > files[f].size then files[f].size - offset else size;
      FrameSame(files);
      while |buf| < n
        invariant Valid() && Frame(old(files), files)
        invariant |buf| <= n && offset + n <= |plain[f]| && buf == plain[f][offset..offset + |buf|]
        decreases n - |buf|
      {
        FrameFile(old(files), files, f);
        var o := offset + |buf|;
        var count := if PAGE - o % PAGE > n - |buf| then n - |buf| else PAGE - o % PAGE;
        ghost var before := files;
        var d := ReadChunk(f, o, count);
        FrameTrans(old(files), before, files);
        SliceJoin(plain[f], offset, o, o + count);
        buf := buf + d;
      }
    }

    /** The body of the loop of vfs_write: a piece of one page. */
    method WriteChunk(ghost t0: nat, f: nat, c: nat, po: nat, d: seq<Octet>) returns (r: nat)
      requires Valid() && f in files && po + |d| <= PAGE && t0 <= tick
      modifies this`files, this`tick, this`plain, entries
      ensures Valid() && Frame(old(files), files)
      ensures plain == old(plain)[f := Over(old(plain[f]), PAGE * c + po, d)]
      ensures Took(old(entries[..]), entries[..], r, f, c, tick) && tick > old(tick)
      ensures Fills(entries[..], r, t0, f, PAGE * c + po, d)
    {
      hide Stored, Cached, Unique, Victim, Over, Fills;
      r := GetPage(f, c);
      tick := tick + 1;
      ghost var s := S();
      PokeKeeps(s, r, po, d, tick);
      entries[r] := entries[r].(data := Over(entries[r].data, po, d), dirty := true, last := tick);
      assert entries[..] == s.es[r := Poked(s.es[r], po, d, tick)];
      plain := plain[f := Over(plain[f], PAGE * c + po, d)];
      PokeFills(s, r, t0, po, d, tick);
    }

    /** The loop of vfs_write: the bytes go into the cache. */
    method WriteLoop(ghost t0: nat, f: nat, offset: nat, src: seq<Octet>)
      requires Valid() && f in files && offset <= files[f].size && t0 == tick && |src| > 0
      modifies this`files, this`tick, this`plain, entries
      ensures Valid() && Frame(old(files), files) && f in files && files[f].size == old(files[f].size)
      ensures plain == old(plain)[f := Over(old(plain[f]), offset, src)]
      ensures Recent(entries[..], t0, f, FirstPage(offset), LastPage(offset, |src|) + 1)
      ensures InFlight(entries[..], t0, f, files[f].size, offset, src, LastPage(offset, |src|) + 1)
    {
      hide Inv, Unique, Victim, Over, InFlight, Recent, Took, PendingAt, Pending, Fills, Frame, StoreAt;
      FrameSame(files);
      InvFacts(S());
      ghost var size := files[f].size;
      ghost var was := plain[f];
      var total := 0;
      WriteStarts(S(), t0, f, offset);
      OverNothing(was, offset);
      while total < |src|
        invariant Valid() && Frame(old(files), files) && t0 <= tick
        invariant total <= |src| && (0 < total < |src| ==> (offset + total) % PAGE == 0)
        invariant plain == old(plain)[f := Over(was, offset, src[..total])]
        invariant Recent(entries[..], t0, f, FirstPage(offset), NextPage(offset, total))
        invariant InFlight(entries[..], t0, f, size, offset, src[..total], NextPage(offset, total))
        decreases |src| - total
      {
        var c, po := (offset + total) / PAGE, (offset + total) % PAGE;
        var count := if PAGE - po > |src| - total then |src| - total else PAGE - po;
        ChunkPages(offset, total, |src|, count);
        InvFacts(S());
        FrameFile(old(files), files, f);
        ghost var es, before := entries[..], files;
        var r := WriteChunk(t0, f, c, po, src[total..total + count]);
        FrameTrans(old(files), before, files);
        StepRecent(es, entries[..], r, t0, f, FirstPage(offset), c, tick);
        StepInFlight(es, entries[..], r, t0, f, size, offset, c, tick, src[..total], src[total..total + count]);
        OverMore(was, offset, src, total, count);
        assert src[..total] + src[total..total + count] == src[..total + count];
        total := total + count;
      }
      assert src[..total] == src;
      FrameFile(old(files), files, f);
    }

    /** vfs_write of a cached file, from inside the file or from its end. */
    method Write(f: nat, offset: nat, src: seq<Octet>)
      requires Valid() && f in files && offset <= files[f].size
      modifies this, entries
      ensures Valid() && plain == old(plain)[f := Result(old(plain[f]), old(files[f].store), offset, src)]
    {
      hide Inv, Unique, Over, InFlight, Result, Recent, Frame, StoreAt;
      InvFacts(S());
      ghost var was := plain[f];
      if |src| == 0 {
        NoBytes(was, files[f].store, offset);
        return;
      }
      ghost var t0, store := tick, files[f].store;
      WriteLoop(t0, f, offset, src);
      FrameFile(old(files), files, f);
      InvFacts(S());
      if offset + |src| > files[f].size {
        GrowWritten(S(), t0, f, was, store, offset, src);
        plain := plain[f := Result(was, store, offset, src)];
        files := files[f := files[f].(size := offset + |src|)];
      } else {
        WrittenInside(was, store, offset, src);
      }
    }

    /** vfs_sync: afterwards every file is on storage. */
    method Sync()
      requires Valid()
      modifies this`files, entries
      ensures Valid() && files.Keys == old(files.Keys)
      ensures forall f, o :: f in plain && 0 <= o < |plain[f]| ==> StoreAt(files[f].store, o) == plain[f][o]
      ensures forall k :: 0 <= k < SLOTS ==>
                entries[k] == if old(entries[k]).valid then old(entries[k]).(dirty := false) else old(entries[k])
    {
      hide Unique, Cached, Put;
      for i := 0 to SLOTS
        invariant Valid() && files.Keys == old(files.Keys)
        invariant forall k :: 0 <= k < i ==> !(entries[k].valid && entries[k].dirty)
        invariant forall k :: i <= k < SLOTS ==> entries[k] == old(entries[k])
        invariant forall k :: 0 <= k < i ==>
                    entries[k] == if old(entries[k]).valid then old(entries[k]).(dirty := false) else old(entries[k])
      {
        if entries[i].valid && entries[i].dirty {
          Flush(i);
        }
      }
      AllClean(S());
    }

    /** pc_purge_vnode of a file that nobody else has open: it is written back and leaves the cache. */
    method Purge(f: nat)
      requires Valid() && f in files
      modifies this`files, entries
      ensures Valid() && f in files && forall i :: 0 <= i < SLOTS ==> !(entries[i].valid && entries[i].file == f)
      ensures forall o :: 0 <= o < |plain[f]| ==> StoreAt(files[f].store, o) == plain[f][o]
      ensures forall k :: 0 <= k < SLOTS && !(old(entries[k]).valid && old(entries[k]).file == f) ==>
                entries[k] == old(entries[k])
    {
      hide Unique, Cached, Put, Stored;
      for i := 0 to SLOTS
        invariant Valid() && f in files
        invariant forall k :: 0 <= k < i ==> !(entries[k].valid && entries[k].file == f)
        invariant forall k :: i <= k < SLOTS ==> entries[k] == old(entries[k])
        invariant forall k :: 0 <= k < i && !(old(entries[k]).valid && old(entries[k]).file == f) ==>
                    entries[k] == old(entries[k])
      {
        if entries[i].valid && entries[i].file == f {
          if entries[i].dirty {
            Flush(i);
          }
          ghost var s := S();
          DropKeeps(s, i);
          entries[i] := entries[i].(valid := false);
          assert entries[..] == s.es[i := s.es[i].(valid := false)];
        }
      }
      Gone(S(), f);
    }
  }

  lemma Gone(s: State, f: nat)
    requires Inv(s) && f in s.plain && forall i :: 0 <= i < |s.es| ==> !(s.es[i].valid && s.es[i].file == f)
    ensures forall o :: 0 <= o < |s.plain[f]| ==> StoreAt(s.files[f].store, o) == s.plain[f][o]
  {
    forall o | 0 <= o < |s.plain[f]|
      ensures StoreAt(s.files[f].store, o) == s.plain[f][o]
    {
      AbsentClean(s.es, f, o / PAGE);
    }
  }

  lemma AllClean(s: State)
    requires Inv(s) && forall i :: 0 <= i < |s.es| ==> !(s.es[i].valid && s.es[i].dirty)
    ensures forall f, o :: f in s.plain && 0 <= o < |s.plain[f]| ==> StoreAt(s.files[f].store, o) == s.plain[f][o]
  {
    forall f, o | f in s.plain && 0 <= o < |s.plain[f]|
      ensures StoreAt(s.files[f].store, o) == s.plain[f][o]
    {
      assert !DirtyPage(s.es, f, o / PAGE);
    }
  }

  /** Copying from a cached page copies from the file. */
  lemma CopyOut(s: State, r: nat, o: nat, count: nat)
    requires Inv(s) && r < |s.es| && s.es[r].valid && s.es[r].page == o / PAGE && o % PAGE + count <= PAGE
    requires o + count <= |s.plain[s.es[r].file]|
    ensures s.es[r].data[o % PAGE..o % PAGE + count] == s.plain[s.es[r].file][o..o + count]
  {
    hide Stored, Unique;
    var e := s.es[r];
    assert Holds(e, s.plain[e.file]);
    var x, y := e.data[o % PAGE..o % PAGE + count], s.plain[e.file][o..o + count];
    forall k | 0 <= k < |x|
      ensures x[k] == y[k]
    {
      assert (o + k) / PAGE == e.page && (o + k) % PAGE == o % PAGE + k;
    }
  }

  lemma SliceJoin(s: seq<Octet>, i: nat, j: nat, k: nat)
    requires i <= j <= k <= |s|
    ensures s[i..j] + s[j..k] == s[i..k]
  {
  }

  lemma NoBytes(s: seq<Octet>, store: seq<Octet>, off: nat)
    requires off <= |s|
    ensures Result(s, store, off, []) == s
  {
  }

  lemma WrittenInside(s: seq<Octet>, store: seq<Octet>, off: nat, d: seq<Octet>)
    requires off + |d| <= |s|
    ensures Result(s, store, off, d) == Over(s, off, d)
  {
  }

  lemma InvFacts(s: State)
    requires Inv(s)
    ensures Unique(s.es) && s.files.Keys == s.plain.Keys && forall i :: 0 <= i < |s.es| ==> |s.es[i].data| == PAGE
    ensures forall f :: f in s.plain ==> |s.plain[f]| == s.files[f].size
  {
  }

  /** The page after those touched by the first n bytes. */
  function NextPage(off: nat, n: nat): nat {
    if n == 0 then FirstPage(off) else (off + n - 1) / PAGE + 1
  }

  lemma ChunkPages(off: nat, total: nat, n: nat, count: nat)
    requires total < n && (0 < total ==> (off + total) % PAGE == 0) && total + count <= n
    requires count == if PAGE - (off + total) % PAGE > n - total then n - total else PAGE - (off + total) % PAGE
    ensures count > 0 && PAGE * ((off + total) / PAGE) + (off + total) % PAGE == off + total
    ensures NextPage(off, total) == (off + total) / PAGE <= LastPage(off, n)
    ensures FirstPage(off) <= (off + total) / PAGE && (total == 0 || off + total <= (off + total) / PAGE * PAGE)
    ensures NextPage(off, n) == LastPage(off, n) + 1
    ensures NextPage(off, total + count) == (off + total) / PAGE + 1
    ensures total + count < n ==> (off + total + count) % PAGE == 0
  {
  }

  lemma OverNothing(s: seq<Octet>, off: nat)
    ensures Over(s, off, []) == s
  {
  }

  lemma OverMore(s: seq<Octet>, off: nat, d: seq<Octet>, n: nat, m: nat)
    requires n + m <= |d|
    ensures Over(Over(s, off, d[..n]), off + n, d[n..n + m]) == Over(s, off, d[..n + m])
  {
  }

  lemma WriteStarts(s: State, t0: nat, f: nat, off: nat)
    requires |s.es| == SLOTS && f in s.files && off <= s.files[f].size &&
             forall i :: 0 <= i < SLOTS ==> s.es[i].last <= t0
    ensures Recent(s.es, t0, f, FirstPage(off), NextPage(off, 0))
    ensures InFlight(s.es, t0, f, s.files[f].size, off, [], NextPage(off, 0))
  {
  }

  /** The end of an extending write. */
  lemma GrowWritten(s: State, t0: nat, f: nat, was: seq<Octet>, store: seq<Octet>, off: nat, d: seq<Octet>)
    requires Inv(s) && f in s.plain && off <= |was| < off + |d| && s.plain[f] == Over(was, off, d)
    requires forall o: nat :: o >= |was| ==> StoreAt(s.files[f].store, o) == StoreAt(store, o)
    requires Recent(s.es, t0, f, FirstPage(off), LastPage(off, |d|) + 1)
    requires InFlight(s.es, t0, f, |was|, off, d, LastPage(off, |d|) + 1)
    ensures Inv(s.(files := s.files[f := s.files[f].(size := off + |d|)],
                   plain := s.plain[f := Result(was, store, off, d)]))
  {
    hide Stored, Cached, Unique, Over, Recent, InFlight, Ahead;
    var tail := Tail(store, off, d, |was|, off + |d| - |was|);
    forall k | 0 <= k < |tail|
      ensures Ahead(s, t0, f, |was| + k, tail[k])
    {
      TailAhead(s, t0, f, |was|, store, off, d, |was| + k);
    }
    GrowKeeps(s, t0, f, tail);
  }

  lemma TailAhead(s: State, t0: nat, f: nat, size: nat, store: seq<Octet>, off: nat, d: seq<Octet>, o: nat)
    requires |s.es| == SLOTS && f in s.files && off <= size <= o < off + |d|
    requires StoreAt(s.files[f].store, o) == StoreAt(store, o)
    requires Recent(s.es, t0, f, FirstPage(off), LastPage(off, |d|) + 1)
    requires InFlight(s.es, t0, f, size, off, d, LastPage(off, |d|) + 1)
    ensures Ahead(s, t0, f, o, TailByte(store, off, d, o))
  {
    hide Recent, Pending;
    var last := LastPage(off, |d|);
    assert Pending(s.es, t0, f, off + (o - off), d[o - off]) || Lost(s.es, f, (off + (o - off)) / PAGE, last + 1);
    if Pending(s.es, t0, f, o, d[o - off]) {
      PendingNear(s.es, t0, f, FirstPage(off), last, o, d[o - off]);
    }
  }

  lemma PendingNear(es: seq<Entry>, t0: nat, f: nat, first: nat, last: nat, o: nat, v: Octet)
    requires |es| == SLOTS && Recent(es, t0, f, first, last + 1) && Pending(es, t0, f, o, v)
    ensures o / PAGE + SLOTS > last
  {
    var i :| PendingAt(es, i, t0, f, o, v);
    FarNotPresent(es, t0, f, first, last + 1, i);
  }
}
