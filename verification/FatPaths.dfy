/** Reading a finished volume by path: 8.3 names, the first entry of a name decides. */
module FatPaths {
  import opened Options
  import opened FatLayout
  import opened FatVolume
  import opened FatRecords
  import opened FatBuilder
  import FatBoot

  // Names.

  function Map<T, U>(f: T -> U, s: seq<T>): (r: seq<U>)
    ensures |r| == |s| && forall i :: 0 <= i < |s| ==> r[i] == f(s[i])
  {
    seq(|s|, i requires 0 <= i < |s| => f(s[i]))
  }

  predicate NoDup<T(==)>(s: seq<T>) {
    forall i, j :: 0 <= i < j < |s| ==> s[i] != s[j]
  }

  lemma {:induction false} NoDupCount<T>(s: seq<T>)
    ensures NoDup(s) <==> forall x :: x in s ==> multiset(s)[x] == 1
  {
    if s != [] {
      var n := |s| - 1;
      NoDupCount(s[..n]);
      assert s == s[..n] + [s[n]];
      if s[n] in s[..n] {
        assert multiset(s)[s[n]] > 1;
        assert !NoDup(s);
      } else {
        assert forall x :: x in s[..n] ==> multiset(s)[x] == multiset(s[..n])[x];
        assert multiset(s)[s[n]] == 1;
        assert NoDup(s) <==> NoDup(s[..n]);
      }
    }
  }

  lemma Without<T>(t: seq<T>, k: nat)
    requires k < |t|
    ensures multiset(t) == multiset(t[..k] + t[k + 1..]) + multiset{t[k]}
  {
    assert t == t[..k] + [t[k]] + t[k + 1..];
  }

  lemma MapWithout<T, U>(f: T -> U, t: seq<T>, k: nat)
    requires k < |t|
    ensures multiset(Map(f, t)) == multiset(Map(f, t[..k] + t[k + 1..])) + multiset{f(t[k])}
  {
    var names := Map(f, t);
    Without(names, k);
    assert Map(f, t[..k] + t[k + 1..]) == names[..k] + names[k + 1..];
  }

  lemma First<T>(s: seq<T>, t: seq<T>) returns (k: nat)
    requires s != [] && multiset(s) == multiset(t)
    ensures k < |t| && t[k] == s[0] && multiset(s[1..]) == multiset(t[..k] + t[k + 1..])
  {
    assert s[0] in multiset(s) && s[0] in t;
    k :| 0 <= k < |t| && t[k] == s[0];
    Without(t, k);
    Without(s, 0);
    assert s[..0] + s[1..] == s[1..];
    Cancel(multiset(s[1..]), multiset(t[..k] + t[k + 1..]), s[0]);
  }

  lemma Cancel<T>(a: multiset<T>, b: multiset<T>, x: T)
    requires a + multiset{x} == b + multiset{x}
    ensures a == b
  {
    assert a == a + multiset{x} - multiset{x};
    assert b == b + multiset{x} - multiset{x};
  }

  /** Permuted lists have permuted names. */
  lemma {:induction false} MapPermuted<T, U>(f: T -> U, s: seq<T>, t: seq<T>)
    requires multiset(s) == multiset(t)
    ensures multiset(Map(f, s)) == multiset(Map(f, t))
    decreases |s|
  {
    hide Map;
    if s == [] {
      assert |multiset(t)| == |multiset(s)| == 0 && t == s;
    } else {
      var k := First(s, t);
      MapWithout(f, s, 0);
      MapWithout(f, t, k);
      assert s[..0] + s[1..] == s[1..];
      MapPermuted(f, s[1..], t[..k] + t[k + 1..]);
    }
  }

  function DirNames(ds: seq<Dir>): seq<seq<Octet>> { Map((d: Dir) => Name11(d.name), ds) }

  function FileNames(fs: seq<FileNode>): seq<seq<Octet>> { Map((f: FileNode) => Name11(f.name), fs) }

  /** The 8.3 names of a directory, sub-directories first. */
  function Names(d: Dir): seq<seq<Octet>> {
    DirNames(Dirs(d.kids)) + FileNames(d.files)
  }

  predicate Unique(rs: seq<Record>) {
    forall i, j :: 0 <= i < j < |rs| ==> rs[i].name != rs[j].name
  }

  function RecordNames(rs: seq<Record>): seq<seq<Octet>> { Map((r: Record) => r.name, rs) }

  lemma SortedNames(d: Dir)
    ensures NoDup(RecordNames(DirRecords(SortedDirs(d.kids)) + FileRecords(SortedFiles(d.files)))) <==> NoDup(Names(d))
  {
    hide Name11, SortBy;
    var ds, fs := SortedDirs(d.kids), SortedFiles(d.files);
    SortMultiset(Dirs(d.kids), (e: Dir) => e.name);
    SortMultiset(d.files, (f: FileNode) => f.name);
    MapPermuted((e: Dir) => Name11(e.name), ds, Dirs(d.kids));
    MapPermuted((f: FileNode) => Name11(f.name), fs, d.files);
    assert RecordNames(DirRecords(ds) + FileRecords(fs)) == DirNames(ds) + FileNames(fs);
    SameCounts(DirNames(ds) + FileNames(fs), Names(d));
  }

  lemma SameCounts<T>(s: seq<T>, t: seq<T>)
    requires multiset(s) == multiset(t)
    ensures NoDup(s) <==> NoDup(t)
  {
    hide NoDup;
    NoDupCount(s);
    NoDupCount(t);
    assert forall x :: x in s <==> x in multiset(s);
    assert forall x :: x in t <==> x in multiset(t);
  }

  lemma NamesOfRecords(rs: seq<Record>)
    ensures NoDup(RecordNames(rs)) <==> Unique(rs)
  {
    var names := RecordNames(rs);
    forall i | 0 <= i < |rs|
      ensures names[i] == rs[i].name
    {
    }
    if NoDup(names) {
      forall i, j | 0 <= i < j < |rs|
        ensures rs[i].name != rs[j].name
      {
        assert names[i] != names[j];
      }
    }
  }

  /** The entries of a directory have different names exactly if the names in the tree do: the two dot entries
      never get in the way. */
  lemma UniqueRecords(d: Dir, root: bool, parent: nat)
    requires NamesOk(d)
    ensures Unique(Records(d, root, parent)) <==> NoDup(Names(d))
  {
    hide Names, NamesOk, DirRecord, FileRecord, SortBy, Dots, NoDup, Unique, RecordNames;
    var rs := DirRecords(SortedDirs(d.kids)) + FileRecords(SortedFiles(d.files));
    var dots := if root then [] else Dots(d.cluster, parent);
    SortedNames(d);
    NamesOfRecords(rs);
    assert Records(d, root, parent) == dots + rs;
    forall i | 0 <= i < |rs|
      ensures |rs[i].name| == 11 && rs[i].name[0] != 0x2E
    {
      NotDot(d, i);
    }
    DotsUnique(d.cluster, parent);
    UniqueParts(dots, rs);
  }

  lemma DotsUnique(cluster: nat, parent: nat)
    ensures var dots := Dots(cluster, parent); |dots| == 2 && Unique(dots)
    ensures forall i :: 0 <= i < 2 ==> var name := Dots(cluster, parent)[i].name; |name| == 11 && name[0] == 0x2E
  {
    hide Spaces;
    var a: seq<Octet>, b: seq<Octet> := [0x2E] + Spaces(10), [0x2E, 0x2E] + Spaces(9);
    assert Spaces(10)[0] == 0x20 by {
      SpacesAt(10);
    }
    assert a[1] == 0x20 && b[1] == 0x2E;
  }

  lemma {:induction false} SpacesAt(n: nat)
    requires n > 0
    ensures Spaces(n)[0] == 0x20
  {
    if n > 1 {
      SpacesAt(n - 1);
    }
  }

  lemma UniqueParts(dots: seq<Record>, rs: seq<Record>)
    requires Unique(dots)
    requires forall i :: 0 <= i < |dots| ==> |dots[i].name| == 11 && dots[i].name[0] == 0x2E
    requires forall i :: 0 <= i < |rs| ==> |rs[i].name| == 11 && rs[i].name[0] != 0x2E
    ensures Unique(dots + rs) <==> Unique(rs)
  {
    var all := dots + rs;
    forall i, j | 0 <= i < j < |all|
      ensures all[i].name != all[j].name || (i >= |dots| && rs[i - |dots|].name == rs[j - |dots|].name)
    {
    }
    if Unique(all) {
      forall i, j | 0 <= i < j < |rs|
        ensures rs[i].name != rs[j].name
      {
        assert all[|dots| + i] == rs[i] && all[|dots| + j] == rs[j];
      }
    }
  }

  lemma NotDot(d: Dir, i: nat)
    requires NamesOk(d)
    requires i < |DirRecords(SortedDirs(d.kids)) + FileRecords(SortedFiles(d.files))|
    ensures var name := (DirRecords(SortedDirs(d.kids)) + FileRecords(SortedFiles(d.files)))[i].name;
            |name| == 11 && name[0] != 0x2E
  {
    hide FatName, SortBy;
    var ds, fs := SortedDirs(d.kids), SortedFiles(d.files);
    SortMultiset(Dirs(d.kids), (e: Dir) => e.name);
    SortMultiset(d.files, (f: FileNode) => f.name);
    if i < |ds| {
      SortedIn(Dirs(d.kids), (e: Dir) => e.name, i);
      NameStart(ds[i].name);
    } else {
      SortedIn(d.files, (f: FileNode) => f.name, i - |ds|);
      NameStart(fs[i - |ds|].name);
    }
  }

  // Looking up.

  /** The number of entries before the first one of this name. */
  function FirstOf(rs: seq<Record>, name: seq<Octet>): (i: nat)
    ensures i <= |rs| && (i < |rs| ==> rs[i].name == name) && forall j :: 0 <= j < i ==> rs[j].name != name
  {
    if rs == [] || rs[0].name == name then 0 else 1 + FirstOf(rs[1..], name)
  }

  function Pick(rs: seq<Record>, name: seq<Octet>): Option<Record> {
    var i := FirstOf(rs, name);
    if i < |rs| then Some(rs[i]) else None
  }

  /** Every entry is the one its name leads to, exactly if no two have one name. */
  lemma FoundExactly(rs: seq<Record>)
    ensures (forall i :: 0 <= i < |rs| ==> FirstOf(rs, rs[i].name) == i) <==> Unique(rs)
  {
    if !Unique(rs) {
      var i, j :| 0 <= i < j < |rs| && rs[i].name == rs[j].name;
      assert FirstOf(rs, rs[j].name) <= i;
    }
  }

  /** So it is in a directory exactly if no two of its names are one 8.3 name. */
  lemma DirectoryExact(d: Dir, root: bool, parent: nat)
    requires NamesOk(d)
    ensures var rs := Records(d, root, parent);
            (forall i :: 0 <= i < |rs| ==> FirstOf(rs, rs[i].name) == i) <==> NoDup(Names(d))
  {
    hide Unique, NoDup, Names, Records, FirstOf;
    UniqueRecords(d, root, parent);
    FoundExactly(Records(d, root, parent));
  }

  /** The entry at the end of a path that starts in the directory at cluster c. */
  function Open(v: Volume, c: nat, path: seq<seq<Octet>>): Option<Record>
    requires Sized(v) && path != []
    decreases |path|
  {
    var r := Pick(Parse(Chain(v, c)), path[0]);
    if r.None? || |path| == 1 then r
    else if r.value.attr == DIRECTORY then Open(v, r.value.cluster, path[1..])
    else None
  }

  /** The bytes of the file at the end of a path. */
  function ReadFile(v: Volume, c: nat, path: seq<seq<Octet>>): Option<seq<Octet>>
    requires Sized(v) && path != []
  {
    var r := Open(v, c, path);
    if r.None? || r.value.attr != ARCHIVE || r.value.size > |Chain(v, r.value.cluster)| then None
    else Some(Chain(v, r.value.cluster)[..r.value.size])
  }

  /** The file is at the end of this path in the tree. */
  ghost predicate Leads(d: Dir, path: seq<string>, f: FileNode)
    requires path != []
    decreases |path|
  {
    if |path| == 1 then f in d.files && f.name == path[0]
    else exists k :: k in Dirs(d.kids) && k.name == path[0] && Leads(k, path[1..], f)
  }

  function ShortPath(path: seq<string>): seq<seq<Octet>> { Map((s: string) => Name11(s), path) }

  /** No directory of the tree has two entries of one 8.3 name. */
  predicate Distinct(d: Dir) { NamesOk(d) && NoDup(Names(d)) && DistinctAll(d.kids) }

  predicate DistinctAll(kids: Forest) {
    match kids
    case Nil => true
    case Cons(d, rest) => Distinct(d) && DistinctAll(rest)
  }

  lemma {:induction false} KidReads(v: Volume, kids: Forest, parent: nat, k: Dir)
    requires Sized(v) && ReadsAll(v, kids, parent) && DistinctAll(kids) && k in Dirs(kids)
    ensures Reads(v, k, false, parent) && Distinct(k)
  {
    if k != kids.first {
      KidReads(v, kids.rest, parent, k);
    }
  }

  /** In a directory without clashes a name leads to its own entry. */
  lemma PickOwn(rs: seq<Record>, i: nat)
    requires Unique(rs) && i < |rs|
    ensures Pick(rs, rs[i].name) == Some(rs[i])
  {
    FoundExactly(rs);
  }

  lemma OwnDir(d: Dir, root: bool, parent: nat, k: Dir)
    requires Distinct(d) && k in Dirs(d.kids)
    ensures Pick(Records(d, root, parent), Name11(k.name)) == Some(DirRecord(k))
  {
    hide Unique, NoDup, Names, NamesOk, SortBy, Pick, Name11, Dots;
    UniqueRecords(d, root, parent);
    var ds := SortedDirs(d.kids);
    var dots := if root then [] else Dots(d.cluster, parent);
    SortMultiset(Dirs(d.kids), (e: Dir) => e.name);
    var i := Placed(Dirs(d.kids), ds, k);
    assert Records(d, root, parent)[|dots| + i] == DirRecord(k);
    PickOwn(Records(d, root, parent), |dots| + i);
  }

  lemma OwnFile(d: Dir, root: bool, parent: nat, f: FileNode)
    requires Distinct(d) && f in d.files
    ensures Pick(Records(d, root, parent), Name11(f.name)) == Some(FileRecord(f))
  {
    hide Unique, NoDup, Names, NamesOk, SortBy, Pick, Name11, Dots;
    UniqueRecords(d, root, parent);
    var ds, fs := SortedDirs(d.kids), SortedFiles(d.files);
    var dots := if root then [] else Dots(d.cluster, parent);
    SortMultiset(d.files, (e: FileNode) => e.name);
    var i := Placed(d.files, fs, f);
    assert Records(d, root, parent)[|dots| + |ds| + i] == FileRecord(f);
    PickOwn(Records(d, root, parent), |dots| + |ds| + i);
  }

  lemma Placed<T>(s: seq<T>, t: seq<T>, x: T) returns (i: nat)
    requires multiset(s) == multiset(t) && x in s
    ensures i < |t| && t[i] == x
  {
    assert x in multiset(t);
    i :| 0 <= i < |t| && t[i] == x;
  }

  lemma FileBytes(v: Volume, c: nat, path: seq<seq<Octet>>, f: FileNode)
    requires Sized(v) && path != [] && Open(v, c, path) == Some(FileRecord(f)) && FileReads(v, f)
    ensures ReadFile(v, c, path) == Some(f.data)
  {
    hide Open, Chain, Name11;
    assert Chain(v, f.cluster)[..|f.data|] == f.data;
  }

  lemma OpenOne(v: Volume, c: nat, path: seq<seq<Octet>>, r: Record)
    requires Sized(v) && path != [] && Pick(Parse(Chain(v, c)), path[0]) == Some(r)
    ensures |path| == 1 ==> Open(v, c, path) == Some(r)
    ensures |path| > 1 && r.attr == DIRECTORY ==> Open(v, c, path) == Open(v, r.cluster, path[1..])
  {
    hide Pick, Parse, Chain;
  }

  /** Where no directory has two entries of one name, every path reads its own file. */
  lemma {:induction false} PathReads(v: Volume, d: Dir, root: bool, parent: nat, path: seq<string>, f: FileNode)
    requires Sized(v) && Reads(v, d, root, parent) && Distinct(d) && path != [] && Leads(d, path, f)
    ensures Open(v, d.cluster, ShortPath(path)) == Some(FileRecord(f)) && FileReads(v, f)
    ensures ReadFile(v, d.cluster, ShortPath(path)) == Some(f.data)
    decreases |path|
  {
    hide Records, Pick, Parse, Chain, Name11, Open, ReadFile, NoDup, Names, NamesOk;
    if |path| == 1 {
      OwnFile(d, root, parent, f);
      OpenOne(v, d.cluster, ShortPath(path), FileRecord(f));
    } else {
      var k :| k in Dirs(d.kids) && k.name == path[0] && Leads(k, path[1..], f);
      OwnDir(d, root, parent, k);
      OpenOne(v, d.cluster, ShortPath(path), DirRecord(k));
      KidReads(v, d.kids, d.cluster, k);
      PathReads(v, k, false, d.cluster, path[1..], f);
      assert ShortPath(path)[1..] == ShortPath(path[1..]);
    }
    FileBytes(v, d.cluster, ShortPath(path), f);
  }

  // What is in a tree does not depend on where it is laid.

  lemma {:induction false} DistinctStrip(d: Dir)
    ensures Distinct(Strip(d)) <==> Distinct(d)
    decreases d
  {
    hide NamesOk, NoDup, Names;
    StripNames(d);
    NamesStrip(d);
    DistinctStripAll(d.kids);
  }

  lemma {:induction false} DistinctStripAll(kids: Forest)
    ensures DistinctAll(StripAll(kids)) <==> DistinctAll(kids)
    decreases kids
  {
    hide Distinct;
    if kids.Cons? {
      DistinctStrip(kids.first);
      DistinctStripAll(kids.rest);
    }
  }

  lemma NamesStrip(d: Dir)
    ensures Names(Strip(d)) == Names(d)
  {
    hide Name11;
    StripFilesAt(d.files);
    StripDirsAt(d.kids);
    var e := Strip(d);
    assert DirNames(Dirs(e.kids)) == DirNames(Dirs(d.kids));
    assert FileNames(e.files) == FileNames(d.files);
  }

  /** The same path leads to the same bytes. */
  lemma {:induction false} LeadsStrip(d: Dir, e: Dir, path: seq<string>, f: FileNode) returns (g: FileNode)
    requires Strip(d) == Strip(e) && path != [] && Leads(d, path, f)
    ensures Leads(e, path, g) && g.name == f.name && g.data == f.data
    decreases |path|
  {
    StripFilesAt(d.files);
    StripFilesAt(e.files);
    StripDirsAt(d.kids);
    StripDirsAt(e.kids);
    if |path| == 1 {
      var i :| 0 <= i < |d.files| && d.files[i] == f;
      g := e.files[i];
      assert f.(cluster := 0) == g.(cluster := 0);
    } else {
      var k :| k in Dirs(d.kids) && k.name == path[0] && Leads(k, path[1..], f);
      var i :| 0 <= i < |Dirs(d.kids)| && Dirs(d.kids)[i] == k;
      var l := Dirs(e.kids)[i];
      assert Strip(k) == Strip(l) && Strip(k).name == k.name && Strip(l).name == l.name;
      g := LeadsStrip(k, l, path[1..], f);
    }
  }

  /** Every file of the tree is read by its path. */
  ghost predicate Served(v: Volume, d: Dir)
    requires Sized(v)
  {
    forall path: seq<string>, f ::
      path != [] && Leads(d, path, f) ==> ReadFile(v, ROOT, ShortPath(path)) == Some(f.data)
  }

  lemma FinishedServes(img: seq<Octet>, g: Geometry, tree: Dir, root: Dir)
    requires Finished(img, g, tree) && Strip(tree) == Strip(root) && Distinct(root)
    ensures (RESERVED + g.spf) * SECTOR <= |img| && Sized(Volume(FatOf(img, g), img, g))
    ensures Served(Volume(FatOf(img, g), img, g), root)
  {
    hide Sized, Reads, Leads, Distinct, Strip, DirsOk, TreeOk, Laid, TreeLaid, ReadFile, FatAt, RoomOf, Size,
      ZeroCount, GetLe32, FatOf, Name11;
    assert (RESERVED + g.spf) * SECTOR <= (RESERVED + 2 * g.spf) * SECTOR;
    var v := Volume(FatOf(img, g), img, g);
    DistinctStrip(root);
    DistinctStrip(tree);
    RootAt(tree);
    forall path: seq<string>, f | path != [] && Leads(root, path, f)
      ensures ReadFile(v, ROOT, ShortPath(path)) == Some(f.data)
    {
      var h := LeadsStrip(root, tree, path, f);
      PathReads(v, tree, true, 0, path, h);
    }
  }

  lemma RootAt(tree: Dir)
    requires Laid(tree, ROOT)
    ensures tree.cluster == ROOT
  {
  }

  /** Building a volume and reading it by path: where no two names of a directory are one 8.3 name, every file has
      its bytes. */
  method BuildAndRead(total: nat, root: Dir, title: string, hidden: nat) returns (r: Option<seq<Octet>>)
    requires total / SECTOR <= MAX_SECTORS
    ensures r.Some? <==>
              && total / SECTOR >= MIN_SECTORS && Buildable(Layout(total / SECTOR), root)
              && FatBoot.Ascii(title) && hidden < U32
    ensures r.Some? && Distinct(root) ==>
              FatBoot.Mounted(r.value).Some? &&
              var g := FatBoot.Mounted(r.value).value;
              && (RESERVED + g.spf) * SECTOR <= |r.value| && Sized(Volume(FatOf(r.value, g), r.value, g))
              && Served(Volume(FatOf(r.value, g), r.value, g), root)
  {
    hide Layout, Buildable, Finished, Strip, Distinct, Sized, Served, FatOf, FatBoot.BootFields, FatBoot.Ascii,
      FatBoot.Mounted;
    var tree;
    r, tree := BuildVolume(total, root, title, hidden);
    if r.Some? && Distinct(root) {
      FinishedServes(r.value, Layout(total / SECTOR), tree, root);
    }
  }

  // ---------- The dot entries ----------

  function Dot(): (name: seq<Octet>)
    ensures |name| == 11
  {
    [0x2E] + Spaces(10)
  }

  function DotDot(): (name: seq<Octet>)
    ensures |name| == 11
  {
    [0x2E, 0x2E] + Spaces(9)
  }

  /** In a directory other than the root, the two dot entries lead back to it and up to its parent. */
  lemma DotsLead(v: Volume, d: Dir, parent: nat)
    requires Sized(v) && Reads(v, d, false, parent)
    ensures Open(v, d.cluster, [Dot()]) == Some(Record(Dot(), 0x10, d.cluster, 0))
    ensures Open(v, d.cluster, [DotDot()]) == Some(Record(DotDot(), 0x10, parent, 0))
  {
    hide Sized, Reads, Spaces;
    var rs := Parse(Chain(v, d.cluster));
    DotEntries(v, d, parent);
    assert DotDot()[1] == 0x2E;
    BlankSecond();
    assert FirstOf(rs, Dot()) == 0 && FirstOf(rs, DotDot()) == 1;
  }

  lemma BlankSecond()
    ensures Dot()[1] == 0x20
  {
    SpacesAt(10);
  }

  lemma DotEntries(v: Volume, d: Dir, parent: nat)
    requires Sized(v) && Reads(v, d, false, parent)
    ensures var rs := Parse(Chain(v, d.cluster));
            |rs| >= 2 && rs[0] == Record(Dot(), 0x10, d.cluster, 0) && rs[1] == Record(DotDot(), 0x10, parent, 0)
  {
    hide Sized, Parse, Chain, Spaces;
  }

  /** From every sub-directory of a directory that reads well the way up leads back; from those of the root to cluster
      2, where the FAT specification asks for 0. */
  lemma {:induction false} UpLeads(v: Volume, kids: Forest, parent: nat, k: Dir)
    requires Sized(v) && ReadsAll(v, kids, parent) && k in Dirs(kids)
    ensures Open(v, k.cluster, [DotDot()]) == Some(Record(DotDot(), 0x10, parent, 0))
    decreases kids
  {
    hide Sized, Reads, Open;
    if k == kids.first {
      DotsLead(v, k, parent);
    } else {
      UpLeads(v, kids.rest, parent, k);
    }
  }

  /** Names that differ in case only are one 8.3 name. */
  lemma CaseClash()
    ensures Name11("a") == Name11("A") && "a" != "A"
  {
    assert UpperAll("a") == UpperAll("A");
  }
}
