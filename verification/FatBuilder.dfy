/** The FAT32 image builder: it lays a directory tree out in clusters and writes it, and a reader that
    follows entries and chains in the finished image gets the tree back. */
module FatBuilder {
  import opened Options
  import opened FatLayout
  import opened FatVolume
  import opened FatRecords
  import FatBoot

  /** What the first two entries of a FAT say: the media descriptor, and a clean volume. */
  const MEDIA_MARK: nat := 0x0FFF_FFF8
  const END_MARK: nat := 0x0FFF_FFFF

  datatype FileNode = FileNode(name: string, data: seq<Octet>, cluster: nat)

  datatype Dir = Dir(name: string, cluster: nat, kids: Forest, files: seq<FileNode>)

  /** Sub-directories in the order they were added. */
  datatype Forest = Nil | Cons(first: Dir, rest: Forest)

  function Dirs(f: Forest): seq<Dir> {
    match f
    case Nil => []
    case Cons(d, rest) => [d] + Dirs(rest)
  }

  // Sorting by name.

  predicate NameLe(a: string, b: string) {
    a == "" || (b != "" && (a[0] < b[0] || (a[0] == b[0] && NameLe(a[1..], b[1..]))))
  }

  /** The order of Python strings: a prefix comes first, else the first difference decides. */
  lemma {:induction false} NameLeMeans(a: string, b: string)
    ensures NameLe(a, b) <==> a <= b || exists k: nat :: Differs(a, b, k) && a[k] < b[k]
  {
    if a != "" && b != "" {
      if a[0] == b[0] {
        NameLeMeans(a[1..], b[1..]);
        assert a == [a[0]] + a[1..] && b == [b[0]] + b[1..];
        if k: nat :| Differs(a[1..], b[1..], k) && a[1..][k] < b[1..][k] {
          assert Differs(a, b, k + 1);
        }
        if k: nat :| Differs(a, b, k) && a[k] < b[k] {
          assert Differs(a[1..], b[1..], k - 1);
        }
      } else {
        assert Differs(a, b, 0);
        forall k: nat | Differs(a, b, k)
          ensures k == 0
        {
        }
      }
    }
  }

  /** The names differ at k and nowhere before. */
  predicate Differs(a: string, b: string, k: nat) {
    k < |a| && k < |b| && a[k] != b[k] && forall i :: 0 <= i < k ==> a[i] == b[i]
  }

  function Insert<T>(x: T, s: seq<T>, key: T -> string): seq<T> {
    if s == [] || NameLe(key(x), key(s[0])) then [x] + s else [s[0]] + Insert(x, s[1..], key)
  }

  /** sorted(items). */
  function SortBy<T>(s: seq<T>, key: T -> string): seq<T> {
    if s == [] then [] else Insert(s[0], SortBy(s[1..], key), key)
  }

  lemma {:induction false} InsertMultiset<T>(x: T, s: seq<T>, key: T -> string)
    ensures multiset(Insert(x, s, key)) == multiset(s) + multiset{x}
  {
    if s != [] && !NameLe(key(x), key(s[0])) {
      InsertMultiset(x, s[1..], key);
      assert s == [s[0]] + s[1..];
    }
  }

  /** Sorting loses and invents nothing. */
  lemma {:induction false} SortMultiset<T>(s: seq<T>, key: T -> string)
    ensures multiset(SortBy(s, key)) == multiset(s)
  {
    if s != [] {
      SortMultiset(s[1..], key);
      InsertMultiset(s[0], SortBy(s[1..], key), key);
      assert s == [s[0]] + s[1..];
    }
  }

  lemma {:induction false} NameTotal(a: string, b: string)
    ensures NameLe(a, b) || NameLe(b, a)
  {
    if a != "" && b != "" {
      NameTotal(a[1..], b[1..]);
    }
  }

  lemma {:induction false} NameTransitive(a: string, b: string, c: string)
    requires NameLe(a, b) && NameLe(b, c)
    ensures NameLe(a, c)
  {
    if a != "" && a[0] == b[0] == c[0] {
      NameTransitive(a[1..], b[1..], c[1..]);
    }
  }

  ghost predicate Ordered<T>(s: seq<T>, key: T -> string) {
    forall i, j :: 0 <= i < j < |s| ==> NameLe(key(s[i]), key(s[j]))
  }

  lemma {:induction false} InsertOrdered<T>(x: T, s: seq<T>, key: T -> string)
    requires Ordered(s, key)
    ensures Ordered(Insert(x, s, key), key)
  {
    hide NameLe;
    if s != [] && NameLe(key(x), key(s[0])) {
      forall j | 0 <= j < |s|
        ensures NameLe(key(x), key(s[j]))
      {
        if j > 0 {
          NameTransitive(key(x), key(s[0]), key(s[j]));
        }
      }
    } else if s != [] {
      NameTotal(key(x), key(s[0]));
      InsertOrdered(x, s[1..], key);
      InsertMultiset(x, s[1..], key);
      var t := Insert(x, s[1..], key);
      forall j | 0 <= j < |t|
        ensures NameLe(key(s[0]), key(t[j]))
      {
        assert t[j] in multiset(t);
      }
    }
  }

  /** Sorting orders by name. */
  lemma {:induction false} SortOrdered<T>(s: seq<T>, key: T -> string)
    ensures Ordered(SortBy(s, key), key)
  {
    if s != [] {
      SortOrdered(s[1..], key);
      InsertOrdered(s[0], SortBy(s[1..], key), key);
    }
  }

  function SortedDirs(f: Forest): seq<Dir> { SortBy(Dirs(f), (d: Dir) => d.name) }

  function SortedFiles(s: seq<FileNode>): seq<FileNode> { SortBy(s, (f: FileNode) => f.name) }

  // The records of a directory.

  function Name11(name: string): (r: seq<Octet>)
    ensures |r| == 11
  {
    if FatName(name).Some? then FatName(name).value else Spaces(11)
  }

  function DirRecord(d: Dir): Record { Record(Name11(d.name), DIRECTORY, d.cluster, 0) }

  function FileRecord(f: FileNode): Record { Record(Name11(f.name), ARCHIVE, f.cluster, |f.data|) }

  function DirRecords(ds: seq<Dir>): (rs: seq<Record>)
    ensures |rs| == |ds| && forall i :: 0 <= i < |ds| ==> rs[i] == DirRecord(ds[i])
  {
    seq(|ds|, i requires 0 <= i < |ds| => DirRecord(ds[i]))
  }

  function FileRecords(fs: seq<FileNode>): (rs: seq<Record>)
    ensures |rs| == |fs| && forall i :: 0 <= i < |fs| ==> rs[i] == FileRecord(fs[i])
  {
    seq(|fs|, i requires 0 <= i < |fs| => FileRecord(fs[i]))
  }

  function Dots(cluster: nat, parent: nat): seq<Record> {
    [Record([0x2E] + Spaces(10), DIRECTORY, cluster, 0), Record([0x2E, 0x2E] + Spaces(9), DIRECTORY, parent, 0)]
  }

  /** The entries write_directory puts into a directory. */
  function Records(d: Dir, root: bool, parent: nat): seq<Record> {
    (if root then [] else Dots(d.cluster, parent)) + DirRecords(SortedDirs(d.kids)) + FileRecords(SortedFiles(d.files))
  }

  // Reading an image.

  datatype Volume = Volume(fat: seq<Octet>, img: seq<Octet>, g: Geometry)

  predicate Sized(v: Volume) {
    && Roomy(v.img, v.g) && ClusterSize(v.g) > 0 && 4 * (v.g.clusters + 2) <= |v.fat|
    && v.g.clusters + 2 <= END_OF_CHAIN && v.g.clusters > 0
  }

  function Chain(v: Volume, c: nat): seq<Octet>
    requires Sized(v)
  {
    ReadChain(v.fat, v.img, v.g, c, v.g.clusters)
  }

  /** The chain of the file starts with its bytes. */
  predicate FileReads(v: Volume, f: FileNode)
    requires Sized(v)
  {
    f.data <= Chain(v, f.cluster)
  }

  /** Walking the volume from a directory finds exactly its entries, its files' bytes and its sub-directories. */
  ghost predicate Reads(v: Volume, d: Dir, root: bool, parent: nat)
    requires Sized(v)
  {
    && Parse(Chain(v, d.cluster)) == Records(d, root, parent)
    && (forall f :: f in d.files ==> FileReads(v, f))
    && ReadsAll(v, d.kids, d.cluster)
  }

  ghost predicate ReadsAll(v: Volume, kids: Forest, parent: nat)
    requires Sized(v)
  {
    match kids
    case Nil => true
    case Cons(d, rest) => Reads(v, d, false, parent) && ReadsAll(v, rest, parent)
  }

  // Where things are laid.

  function Size(d: Dir): nat { 1 + Sizes(d.kids) }

  function Sizes(kids: Forest): nat {
    match kids
    case Nil => 0
    case Cons(d, rest) => Size(d) + Sizes(rest)
  }

  /** The directories of a subtree take one cluster each, from a on. */
  predicate Laid(d: Dir, a: nat) { d.cluster == a && LaidAll(d.kids, a + 1) }

  predicate LaidAll(kids: Forest, a: nat) {
    match kids
    case Nil => true
    case Cons(d, rest) => Laid(d, a) && LaidAll(rest, a + Size(d))
  }

  function Room(files: seq<FileNode>, cs: nat): nat
    requires cs > 0
  {
    if files == [] then 0 else Clusters(|files[0].data|, cs) + Room(files[1..], cs)
  }

  function RoomOf(d: Dir, cs: nat): nat
    requires cs > 0
  {
    Room(d.files, cs) + RoomAll(d.kids, cs)
  }

  function RoomAll(kids: Forest, cs: nat): nat
    requires cs > 0
  {
    match kids
    case Nil => 0
    case Cons(d, rest) => RoomOf(d, cs) + RoomAll(rest, cs)
  }

  /** The files take consecutive runs of clusters from a on. */
  predicate FilesLaid(files: seq<FileNode>, a: nat, cs: nat)
    requires cs > 0
  {
    files == [] || (files[0].cluster == a && FilesLaid(files[1..], a + Clusters(|files[0].data|, cs), cs))
  }

  predicate TreeLaid(d: Dir, a: nat, cs: nat)
    requires cs > 0
  {
    FilesLaid(d.files, a, cs) && ForestLaid(d.kids, a + Room(d.files, cs), cs)
  }

  predicate ForestLaid(kids: Forest, a: nat, cs: nat)
    requires cs > 0
  {
    match kids
    case Nil => true
    case Cons(d, rest) => TreeLaid(d, a, cs) && ForestLaid(rest, a + RoomOf(d, cs), cs)
  }

  /** The tree without its cluster numbers. */
  function Strip(d: Dir): Dir { Dir(d.name, 0, StripAll(d.kids), StripFiles(d.files)) }

  function StripAll(kids: Forest): Forest {
    match kids
    case Nil => Nil
    case Cons(d, rest) => Cons(Strip(d), StripAll(rest))
  }

  function StripFiles(files: seq<FileNode>): seq<FileNode> {
    if files == [] then [] else [files[0].(cluster := 0)] + StripFiles(files[1..])
  }

  // Chains in a volume.

  predicate IsRun(g: Geometry, c: nat, count: nat) {
    2 <= c && c + count <= g.clusters + 2
  }

  /** The run is a chain that holds the data. */
  predicate RunOk(v: Volume, c: nat, d: seq<Octet>)
    requires Sized(v)
  {
    var n := Clusters(|d|, ClusterSize(v.g));
    IsRun(v.g, c, n) && Linked(v.fat, c, n) && Holds(v.img, v.g, c, n, d)
  }

  predicate TreeOk(v: Volume, d: Dir)
    requires Sized(v)
  {
    (forall f :: f in d.files ==> RunOk(v, f.cluster, f.data)) && ForestOk(v, d.kids)
  }

  predicate ForestOk(v: Volume, kids: Forest)
    requires Sized(v)
  {
    match kids
    case Nil => true
    case Cons(d, rest) => TreeOk(v, d) && ForestOk(v, rest)
  }

  /** Every cluster from lo on may have changed, none before. */
  ghost predicate Extends(v: Volume, w: Volume, lo: nat, hi: nat)
    requires Sized(v) && Sized(w)
  {
    && w.g == v.g && |w.fat| == |v.fat| && SameOutside(v.img, w.img, v.g, lo, hi)
    && forall c: nat :: c < lo && c < v.g.clusters + 2 ==> FatAt(w.fat, c) == FatAt(v.fat, c)
  }

  lemma RunKept(v: Volume, w: Volume, lo: nat, hi: nat, c: nat, d: seq<Octet>)
    requires Sized(v) && Sized(w) && Extends(v, w, lo, hi) && RunOk(v, c, d)
    requires c + Clusters(|d|, ClusterSize(v.g)) <= lo
    ensures RunOk(w, c, d)
  {
    hide FatAt, Cluster, ClusterSize, Clusters, Roomy;
    var n := Clusters(|d|, ClusterSize(v.g));
    SameLinks(v.fat, w.fat, c, n);
    SameHolds(v.img, w.img, v.g, c, n, d, lo, hi);
  }

  /** The FAT stayed, and only the clusters [lo, hi) changed. */
  ghost predicate Rewrites(v: Volume, w: Volume, lo: nat, hi: nat)
    requires Sized(v) && Sized(w)
  {
    w.g == v.g && w.fat == v.fat && SameOutside(v.img, w.img, v.g, lo, hi)
  }

  lemma RunBeside(v: Volume, w: Volume, lo: nat, hi: nat, c: nat, d: seq<Octet>)
    requires Sized(v) && Sized(w) && Rewrites(v, w, lo, hi) && RunOk(v, c, d)
    requires c + Clusters(|d|, ClusterSize(v.g)) <= lo || hi <= c
    ensures RunOk(w, c, d)
  {
    hide FatAt, Cluster, ClusterSize, Clusters, Roomy;
    SameHolds(v.img, w.img, v.g, c, Clusters(|d|, ClusterSize(v.g)), d, lo, hi);
  }

  lemma ExtendsTrans(u: Volume, v: Volume, w: Volume, lo: nat, mid: nat, hi: nat)
    requires Sized(u) && Sized(v) && Sized(w) && lo <= mid <= hi
    requires Extends(u, v, lo, mid) && Extends(v, w, mid, hi)
    ensures Extends(u, w, lo, hi)
  {
    hide FatAt, Cluster, ClusterSize, Roomy;
    SameTrans(u.img, v.img, w.img, u.g, lo, mid, hi);
  }

  /** Earlier files keep their bytes when more clusters are written. */
  lemma {:induction false} FilesKept(v: Volume, w: Volume, lo: nat, hi: nat, files: seq<FileNode>, a: nat)
    requires Sized(v) && Sized(w) && Extends(v, w, lo, hi)
    requires FilesLaid(files, a, ClusterSize(v.g)) && a + Room(files, ClusterSize(v.g)) <= lo
    requires forall f :: f in files ==> RunOk(v, f.cluster, f.data)
    ensures forall f :: f in files ==> RunOk(w, f.cluster, f.data)
    decreases |files|
  {
    hide Extends, RunOk, ClusterSize, Clusters;
    if files != [] {
      RunKept(v, w, lo, hi, files[0].cluster, files[0].data);
      FilesKept(v, w, lo, hi, files[1..], a + Clusters(|files[0].data|, ClusterSize(v.g)));
    }
  }

  lemma {:induction false} TreeKept(v: Volume, w: Volume, lo: nat, hi: nat, d: Dir, a: nat)
    requires Sized(v) && Sized(w) && Extends(v, w, lo, hi) && TreeOk(v, d)
    requires TreeLaid(d, a, ClusterSize(v.g)) && a + RoomOf(d, ClusterSize(v.g)) <= lo
    ensures TreeOk(w, d)
    decreases d
  {
    hide Extends, RunOk, ClusterSize, Room, FilesLaid;
    FilesKept(v, w, lo, hi, d.files, a);
    ForestKept(v, w, lo, hi, d.kids, a + Room(d.files, ClusterSize(v.g)));
  }

  lemma {:induction false} ForestKept(v: Volume, w: Volume, lo: nat, hi: nat, kids: Forest, a: nat)
    requires Sized(v) && Sized(w) && Extends(v, w, lo, hi) && ForestOk(v, kids)
    requires ForestLaid(kids, a, ClusterSize(v.g)) && a + RoomAll(kids, ClusterSize(v.g)) <= lo
    ensures ForestOk(w, kids)
    decreases kids
  {
    hide Extends, ClusterSize, TreeLaid, RoomOf, TreeOk;
    if kids.Cons? {
      TreeKept(v, w, lo, hi, kids.first, a);
      ForestKept(v, w, lo, hi, kids.rest, a + RoomOf(kids.first, ClusterSize(v.g)));
    }
  }

  /** Files laid behind the directories keep their bytes when directories are written. */
  lemma {:induction false} FilesBeside(v: Volume, w: Volume, lo: nat, hi: nat, files: seq<FileNode>, a: nat)
    requires Sized(v) && Sized(w) && Rewrites(v, w, lo, hi)
    requires FilesLaid(files, a, ClusterSize(v.g)) && hi <= a
    requires forall f :: f in files ==> RunOk(v, f.cluster, f.data)
    ensures forall f :: f in files ==> RunOk(w, f.cluster, f.data)
    decreases |files|
  {
    hide Rewrites, RunOk, ClusterSize, Clusters;
    if files != [] {
      RunBeside(v, w, lo, hi, files[0].cluster, files[0].data);
      FilesBeside(v, w, lo, hi, files[1..], a + Clusters(|files[0].data|, ClusterSize(v.g)));
    }
  }

  lemma {:induction false} TreeBeside(v: Volume, w: Volume, lo: nat, hi: nat, d: Dir, a: nat)
    requires Sized(v) && Sized(w) && Rewrites(v, w, lo, hi) && TreeOk(v, d)
    requires TreeLaid(d, a, ClusterSize(v.g)) && hi <= a
    ensures TreeOk(w, d)
    decreases d
  {
    hide Rewrites, RunOk, ClusterSize, Room, FilesLaid;
    FilesBeside(v, w, lo, hi, d.files, a);
    ForestBeside(v, w, lo, hi, d.kids, a + Room(d.files, ClusterSize(v.g)));
  }

  lemma {:induction false} ForestBeside(v: Volume, w: Volume, lo: nat, hi: nat, kids: Forest, a: nat)
    requires Sized(v) && Sized(w) && Rewrites(v, w, lo, hi) && ForestOk(v, kids)
    requires ForestLaid(kids, a, ClusterSize(v.g)) && hi <= a
    ensures ForestOk(w, kids)
    decreases kids
  {
    hide Rewrites, ClusterSize, TreeLaid, RoomOf, TreeOk;
    if kids.Cons? {
      TreeBeside(v, w, lo, hi, kids.first, a);
      ForestBeside(v, w, lo, hi, kids.rest, a + RoomOf(kids.first, ClusterSize(v.g)));
    }
  }

  // Directories.

  /** The bytes of a directory: its entries and a zero entry. */
  function Bytes(d: Dir, root: bool, parent: nat): (b: seq<Octet>)
    requires Writable(d, root, parent)
  {
    EncodeAll(Records(d, root, parent)) + Zeros(32)
  }

  predicate Writable(d: Dir, root: bool, parent: nat) {
    forall r :: r in Records(d, root, parent) ==> Encodable(r)
  }

  /** Every directory's cluster holds its entries. */
  predicate DirsOk(v: Volume, d: Dir, root: bool, parent: nat)
    requires Sized(v)
  {
    Writable(d, root, parent) && RunOk(v, d.cluster, Bytes(d, root, parent)) &&
    |Bytes(d, root, parent)| <= ClusterSize(v.g) && DirsAllOk(v, d.kids, d.cluster)
  }

  predicate DirsAllOk(v: Volume, kids: Forest, parent: nat)
    requires Sized(v)
  {
    match kids
    case Nil => true
    case Cons(d, rest) => DirsOk(v, d, false, parent) && DirsAllOk(v, rest, parent)
  }

  lemma {:induction false} DirsBeside(v: Volume, w: Volume, lo: nat, hi: nat, d: Dir, root: bool, parent: nat, a: nat)
    requires Sized(v) && Sized(w) && Rewrites(v, w, lo, hi) && DirsOk(v, d, root, parent)
    requires Laid(d, a) && (a + Size(d) <= lo || hi <= a)
    ensures DirsOk(w, d, root, parent)
    decreases d
  {
    hide Rewrites, RunOk, ClusterSize, Writable, Bytes, Clusters;
    ClustersOne(|Bytes(d, root, parent)|, ClusterSize(v.g));
    RunBeside(v, w, lo, hi, d.cluster, Bytes(d, root, parent));
    SameGeometry(v, w, lo, hi);
    DirsAllBeside(v, w, lo, hi, d.kids, d.cluster, a + 1);
  }

  lemma SameGeometry(v: Volume, w: Volume, lo: nat, hi: nat)
    requires Sized(v) && Sized(w) && Rewrites(v, w, lo, hi)
    ensures w.g == v.g
  {
  }

  lemma {:induction false} DirsAllBeside(v: Volume, w: Volume, lo: nat, hi: nat, kids: Forest, parent: nat, a: nat)
    requires Sized(v) && Sized(w) && Rewrites(v, w, lo, hi) && DirsAllOk(v, kids, parent)
    requires LaidAll(kids, a) && (a + Sizes(kids) <= lo || hi <= a)
    ensures DirsAllOk(w, kids, parent)
    decreases kids
  {
    hide Rewrites, DirsOk, Size, Laid;
    if kids.Cons? {
      DirsBeside(v, w, lo, hi, kids.first, false, parent, a);
      DirsAllBeside(v, w, lo, hi, kids.rest, parent, a + Size(kids.first));
    }
  }

  // The walk.

  lemma RunReads(v: Volume, c: nat, d: seq<Octet>)
    requires Sized(v) && RunOk(v, c, d)
    ensures d <= Chain(v, c)
  {
    hide FatAt, Cluster, ClusterSize, Clusters, Roomy;
    ChainReads(v.fat, v.img, v.g, c, Clusters(|d|, ClusterSize(v.g)), d, v.g.clusters);
  }

  /** A volume with good directories and files reads back as the tree. */
  lemma {:induction false} TreeReads(v: Volume, d: Dir, root: bool, parent: nat)
    requires Sized(v) && DirsOk(v, d, root, parent) && TreeOk(v, d)
    ensures Reads(v, d, root, parent)
    decreases d
  {
    hide RunOk, ClusterSize, Chain, Records, Parse;
    var b := Bytes(d, root, parent);
    RunReads(v, d.cluster, b);
    var rest := Chain(v, d.cluster)[|b|..];
    assert Chain(v, d.cluster) == EncodeAll(Records(d, root, parent)) + Zeros(32) + rest;
    ParseBack(Records(d, root, parent), rest);
    forall f | f in d.files
      ensures FileReads(v, f)
    {
      RunReads(v, f.cluster, f.data);
    }
    ForestReads(v, d.kids, d.cluster);
  }

  lemma {:induction false} ForestReads(v: Volume, kids: Forest, parent: nat)
    requires Sized(v) && DirsAllOk(v, kids, parent) && ForestOk(v, kids)
    ensures ReadsAll(v, kids, parent)
    decreases kids
  {
    hide DirsOk, TreeOk, Reads;
    if kids.Cons? {
      TreeReads(v, kids.first, false, parent);
      ForestReads(v, kids.rest, parent);
    }
  }

  class Builder {
    const g: Geometry
    const size: nat
    const title: string
    var image: seq<Octet>
    var fat: seq<Octet>
    var next: nat

    ghost function V(): Volume
      reads this
    {
      Volume(fat, image, g)
    }

    /** Exactly the clusters before `next` are taken. */
    ghost predicate Valid()
      reads this
    {
      && Sized(V()) && |image| == size && |fat| == g.spf * SECTOR && 3 <= next <= g.clusters + 2
      && (forall c: nat :: next <= c < g.clusters + 2 ==> FatAt(fat, c) == 0)
      && (forall c: nat :: 2 <= c < next ==> FatAt(fat, c) > 0)
      && FatAt(fat, 0) == MEDIA_MARK && FatAt(fat, 1) == END_MARK
    }

    /** An empty volume: two reserved FAT entries and the root directory's cluster. */
    constructor (total: nat, g: Geometry, title: string)
      requires Fits(total / SECTOR, g) && 0 < g.clusters && g.clusters + 2 <= END_OF_CHAIN
      ensures Valid() && next == 3 && Singles(fat, 2, 3) && this.g == g && size == total && this.title == title
    {
      this.g, this.size, this.title := g, total, title;
      this.next := 3;
      this.image := Zeros(total);
      this.fat := SetFat(SetFat(SetFat(Zeros(g.spf * SECTOR), 0, MEDIA_MARK), 1, END_MARK), ROOT, END_MARK);
      new;
      FitsSized(total, g, image, fat);
      EmptyFat(g);
    }

    /** allocate_chain. */
    method AllocateChain(bytes: nat) returns (r: Option<nat>)
      requires Valid()
      modifies this`fat, this`next
      ensures Valid() && Extends(old(V()), V(), old(next), old(next))
      ensures r.None? <==> old(next) + Clusters(bytes, ClusterSize(g)) > g.clusters + 2
      ensures r.None? ==> next == old(next)
      ensures r.Some? ==> r.value == old(next) && next == old(next) + Clusters(bytes, ClusterSize(g))
      ensures r.Some? ==> Linked(fat, old(next), Clusters(bytes, ClusterSize(g)))
    {
      hide FatAt, SetFat, Cluster, Roomy, Clusters, ClusterSize;
      var count := Clusters(bytes, ClusterSize(g));
      SomeClusters(bytes, ClusterSize(g));
      var first := next;
      var last := first + count - 1;
      if last >= g.clusters + 2 {
        return None;
      }
      ghost var was := fat;
      for c := first to last
        invariant |fat| == |was| && next == first
        invariant forall d: nat :: d < g.clusters + 2 ==>
                    FatAt(fat, d) == if first <= d < c then d + 1 else FatAt(was, d)
      {
        ghost var before := fat;
        fat := SetFat(fat, c, c + 1);
        SetFatAll(before, c, c + 1, g.clusters + 2);
      }
      ghost var before := fat;
      fat := SetFat(fat, last, 0x0FFF_FFFF);
      SetFatAll(before, last, 0x0FFF_FFFF, g.clusters + 2);
      next := last + 1;
      LinkedRun(fat, first, count);
      return Some(first);
    }

    /** write_chain: the data goes through the chain cluster by cluster, the rest is zeroed. */
    method WriteChain(first: nat, data: seq<Octet>)
      requires Valid()
      requires var n := Clusters(|data|, ClusterSize(g)); IsRun(g, first, n) && Linked(fat, first, n)
      modifies this`image
      ensures Valid() && RunOk(V(), first, data)
      ensures Extends(old(V()), V(), first, first + Clusters(|data|, ClusterSize(g)))
    {
      hide FatAt, SetFat, Cluster, Roomy, Clusters, ClusterSize, Holds, Prefix, Linked;
      var cs := ClusterSize(g);
      ghost var n := Clusters(|data|, cs);
      SomeClusters(|data|, cs);
      DropAll(data, cs);
      ghost var k := 0;
      var cluster := first;
      var rest := data;
      SameStart(image, g, first, data);
      while true
        invariant Valid() && |image| == |old(image)| && k < n && cluster == first + k && rest == DropN(data, k, cs)
        invariant SameOutside(old(image), image, g, first, first + k) && Prefix(image, g, first, k, data)
        decreases n - k
      {
        ghost var before := image;
        PutPiece(cluster, Take(rest, cs));
        PrefixMore(before, image, g, first, k, data);
        SameTrans(old(image), before, image, g, first, first + k, first + k + 1);
        DropNext(data, k, cs);
        rest := Drop(rest, cs);
        LinkedAt(fat, first, n, k);
        k := k + 1;
        if FatAt(fat, cluster) >= END_OF_CHAIN {
          break;
        }
        cluster := FatAt(fat, cluster);
      }
      PrefixHolds(image, g, first, n, data);
    }

    /** allocate_directory_clusters of a directory below the root. */
    method AllocateDirectory(d: Dir) returns (ok: bool, e: Dir)
      requires Valid()
      modifies this`fat, this`next
      ensures Valid() && Extends(old(V()), V(), old(next), old(next)) && next >= old(next)
      ensures ok ==> Strip(e) == Strip(d) && Laid(e, old(next)) && next == old(next) + Size(e)
      ensures ok ==> Singles(fat, old(next), next)
      ensures !ok ==> old(next) + Size(d) > g.clusters + 2
      decreases d
    {
      hide Linked, Extends, FatAt, Clusters, ClusterSize, Roomy, Singles;
      ghost var v := V();
      ClustersOne(ClusterSize(g), ClusterSize(g));
      var c := AllocateChain(ClusterSize(g));
      if c.None? {
        return false, d;
      }
      ghost var u := V();
      OneCluster(fat, c.value);
      var kids;
      ok, kids := AllocateDirectories(d.kids);
      ExtendsFlat(v, u, V(), old(next), old(next) + 1);
      e := d.(cluster := c.value, kids := kids);
      if ok {
        SinglesMore(u, V(), old(next), old(next) + 1, next);
      }
    }

    /** allocate_directory_clusters of the children. */
    method AllocateDirectories(kids: Forest) returns (ok: bool, out: Forest)
      requires Valid()
      modifies this`fat, this`next
      ensures Valid() && Extends(old(V()), V(), old(next), old(next)) && next >= old(next)
      ensures ok ==> StripAll(out) == StripAll(kids) && LaidAll(out, old(next)) && next == old(next) + Sizes(out)
      ensures ok ==> Singles(fat, old(next), next)
      ensures !ok ==> old(next) + Sizes(kids) > g.clusters + 2
      decreases kids
    {
      hide Linked, Extends, FatAt, Clusters, ClusterSize, Roomy, Singles, Strip, Laid, Size;
      ghost var v := V();
      ExtendsSame(v, next);
      SinglesNone(fat, next);
      match kids
      case Nil => return true, Nil;
      case Cons(d, rest) =>
        var e;
        ok, e := AllocateDirectory(d);
        if !ok {
          return false, Nil;
        }
        StripSize(e);
        StripSize(d);
        ghost var u, mid := V(), next;
        var es;
        ok, es := AllocateDirectories(rest);
        ExtendsFlat(v, u, V(), old(next), mid);
        if ok {
          SinglesMore(u, V(), old(next), mid, next);
        }
        return ok, Cons(e, es);
    }

    /** populate_file_data of the files of one directory. */
    method PopulateFiles(files: seq<FileNode>) returns (ok: bool, out: seq<FileNode>)
      requires Valid()
      modifies this`image, this`fat, this`next
      ensures Valid() && next >= old(next) && Extends(old(V()), V(), old(next), next)
      ensures ok ==> StripFiles(out) == StripFiles(files) && FilesLaid(out, old(next), ClusterSize(g))
      ensures ok ==> next == old(next) + Room(out, ClusterSize(g))
      ensures ok ==> forall f :: f in out ==> RunOk(V(), f.cluster, f.data)
      ensures !ok ==> old(next) + Room(files, ClusterSize(g)) > g.clusters + 2
    {
      hide Linked, Extends, FatAt, Clusters, ClusterSize, Roomy, RunOk, FilesLaid, Room, StripFiles, Holds;
      ghost var v, n, cs := V(), next, ClusterSize(g);
      ExtendsSame(v, next);
      NoFiles(n, cs);
      out := [];
      for i := 0 to |files|
        invariant Valid() && next >= n && Extends(v, V(), n, next)
        invariant StripFiles(out) == StripFiles(files[..i]) && FilesLaid(out, n, cs) && next == n + Room(out, cs)
        invariant forall f :: f in out ==> RunOk(V(), f.cluster, f.data)
      {
        ghost var u, mid := V(), next;
        var c := AllocateChain(|files[i].data|);
        if c.None? {
          ExtendsTrans(v, u, V(), n, mid, mid);
          StripRoom(out, cs);
          StripRoom(files[..i], cs);
          RoomUpTo(files, i, cs);
          return false, [];
        }
        ghost var w := V();
        var f := files[i].(cluster := c.value);
        WriteChain(f.cluster, f.data);
        ExtendsWrite(u, w, V(), mid, next);
        ExtendsTrans(v, u, V(), n, mid, next);
        FilesKept(u, V(), mid, next, out, n);
        MoreFiles(out, f, n, cs);
        StripMore(files, i);
        StripOne(out, f, files[i]);
        out := out + [f];
      }
      assert files[..|files|] == files;
      return true, out;
    }

    /** populate_file_data. */
    method Populate(d: Dir, ghost a: nat) returns (ok: bool, e: Dir)
      requires Valid() && Laid(d, a)
      modifies this`image, this`fat, this`next
      ensures Valid() && next >= old(next) && Extends(old(V()), V(), old(next), next)
      ensures ok ==> Strip(e) == Strip(d) && Laid(e, a) && Size(e) == Size(d)
      ensures ok ==>
                TreeLaid(e, old(next), ClusterSize(g)) && next == old(next) + RoomOf(e, ClusterSize(g)) &&
                TreeOk(V(), e)
      ensures !ok ==> old(next) + RoomOf(d, ClusterSize(g)) > g.clusters + 2
      decreases d
    {
      hide Extends, FatAt, ClusterSize, Roomy, RunOk, FilesLaid, Room, StripFiles;
      ghost var v := V();
      var files;
      ok, files := PopulateFiles(d.files);
      if !ok {
        return false, d;
      }
      StripRoom(files, ClusterSize(g));
      StripRoom(d.files, ClusterSize(g));
      ghost var u, mid := V(), next;
      var kids;
      ok, kids := PopulateAll(d.kids, a + 1);
      ExtendsTrans(v, u, V(), old(next), mid, next);
      e := d.(files := files, kids := kids);
      if ok {
        FilesKept(u, V(), mid, next, files, old(next));
      }
    }

    method PopulateAll(kids: Forest, ghost a: nat) returns (ok: bool, out: Forest)
      requires Valid() && LaidAll(kids, a)
      modifies this`image, this`fat, this`next
      ensures Valid() && next >= old(next) && Extends(old(V()), V(), old(next), next)
      ensures ok ==> StripAll(out) == StripAll(kids) && LaidAll(out, a) && Sizes(out) == Sizes(kids)
      ensures ok ==> ForestLaid(out, old(next), ClusterSize(g)) && next == old(next) + RoomAll(out, ClusterSize(g))
      ensures ok ==> ForestOk(V(), out)
      ensures !ok ==> old(next) + RoomAll(kids, ClusterSize(g)) > g.clusters + 2
      decreases kids
    {
      hide Extends, FatAt, ClusterSize, Roomy, Strip, Laid, Size, TreeLaid, RoomOf, TreeOk;
      ghost var v := V();
      ExtendsSame(v, next);
      match kids
      case Nil => return true, Nil;
      case Cons(d, rest) =>
        var e;
        ok, e := Populate(d, a);
        if !ok {
          return false, Nil;
        }
        StripRoomOf(e, ClusterSize(g));
        StripRoomOf(d, ClusterSize(g));
        ghost var u, mid := V(), next;
        var es;
        ok, es := PopulateAll(rest, a + Size(d));
        ExtendsTrans(v, u, V(), old(next), mid, next);
        if ok {
          TreeKept(u, V(), mid, next, e, old(next));
        }
        return ok, Cons(e, es);
    }

    /** write_directory. */
    method WriteDirectory(d: Dir, root: bool, parent: nat, ghost a: nat) returns (ok: bool)
      requires Valid() && Laid(d, a) && 2 <= a && a + Size(d) <= next && Singles(fat, a, a + Size(d))
      requires TreeBounded(d) && parent < U32
      modifies this`image
      ensures Valid() && Rewrites(old(V()), V(), a, a + Size(d))
      ensures ok ==> DirsOk(V(), d, root, parent)
      ensures ok <==> Recordable(d, root, ClusterSize(g))
      decreases d
    {
      hide Linked, Extends, FatAt, Clusters, ClusterSize, Roomy, Singles, RunOk, Holds, Records, EncodeAll, Encodable,
        FatName, Rewrites, Zeros;
      ghost var v := V();
      RewritesSame(v, a, a + Size(d));
      if !NamesOk(d) {
        return false;
      }
      WritableOf(d, root, parent);
      RecordsCount(d, root, parent);
      var bytes := EncodeAll(Records(d, root, parent)) + Zeros(32);
      if |bytes| > ClusterSize(g) {
        return false;
      }
      ClustersOne(|bytes|, ClusterSize(g));
      SingleLinked(fat, a, a + Size(d), a);
      WriteChain(d.cluster, bytes);
      ghost var u := V();
      WroteOnly(v, u, a, a + 1);
      SinglesPart(fat, a, a + 1, a + Size(d));
      ok := WriteDirectories(d.kids, d.cluster, a + 1);
      RewritesTrans(v, u, V(), a, a + 1, a + Size(d));
      RunBeside(u, V(), a + 1, a + Size(d), d.cluster, bytes);
    }

    method WriteDirectories(kids: Forest, parent: nat, ghost a: nat) returns (ok: bool)
      requires Valid() && LaidAll(kids, a) && 2 <= a && a + Sizes(kids) <= next && Singles(fat, a, a + Sizes(kids))
      requires ForestBounded(kids) && parent < U32
      modifies this`image
      ensures Valid() && Rewrites(old(V()), V(), a, a + Sizes(kids))
      ensures ok ==> DirsAllOk(V(), kids, parent)
      ensures ok <==> RecordableAll(kids, ClusterSize(g))
      decreases kids
    {
      hide FatAt, ClusterSize, Roomy, Singles, Rewrites, DirsOk, Laid, Size, TreeBounded, Recordable;
      ghost var v := V();
      RewritesSame(v, a, a + Sizes(kids));
      match kids
      case Nil => return true;
      case Cons(d, rest) =>
        SinglesPart(fat, a, a, a + Size(d));
        ghost var mid := a + Size(d);
        SinglesSplit(fat, a, mid, a + Sizes(kids));
        ok := WriteDirectory(d, false, parent, a);
        ghost var u := V();
        if !ok {
          RewritesMore(v, u, a, mid, a + Sizes(kids));
          return;
        }
        ok := WriteDirectories(rest, parent, mid);
        RewritesTrans(v, u, V(), a, mid, a + Sizes(kids));
        DirsBeside(u, V(), mid, a + Sizes(kids), d, false, parent, a);
    }

    /** finalise: allocates, writes files and directories, then the boot sectors, FSInfo and both FATs. */
    method Finalise(root: Dir, hidden: nat) returns (r: Option<seq<Octet>>, tree: Dir)
      requires Valid() && next == 3 && Singles(fat, 2, 3) && FatBoot.BootFits(size / SECTOR, g)
      modifies this
      ensures r.Some? ==> |r.value| == size && Strip(tree) == Strip(root) && Finished(r.value, g, tree)
      ensures r.Some? ==> FatBoot.BootFields(r.value, size / SECTOR, g, title, hidden)
      ensures r.Some? <==> Buildable(g, root) && FatBoot.Ascii(title) && hidden < U32
    {
      hide Extends, FatAt, ClusterSize, Roomy, Singles, Rewrites, DirsOk, TreeOk, TreeLaid, Finished, Strip, RoomOf,
        Recordable, FatBoot.BootFields, FatBoot.Ascii, FatBoot.BootFits;
      var ok, kids := AllocateDirectories(root.kids);
      tree := root.(cluster := ROOT, kids := kids);
      if !ok {
        return None, tree;
      }
      RootLaid(root, kids);
      BuildableStrip(g, root, tree);
      SinglesMore(old(V()), V(), 2, 3, next);
      ghost var n, u := next, V();
      var t;
      ok, t := Populate(tree, 2);
      if !ok {
        return None, tree;
      }
      BuildableStrip(g, tree, t);
      tree := t;
      SinglesKept(u, V(), 2, n, next);
      TreeOkBounded(V(), tree, 2);
      ghost var v := V();
      ok := WriteDirectory(tree, true, 0, 2);
      if !ok {
        return None, tree;
      }
      TreeBeside(v, V(), 2, 2 + Size(tree), tree, n);
      if !FatBoot.Ascii(title) || hidden >= U32 {
        return None, tree;
      }
      WriteHeader(hidden, tree, n);
      return Some(image), tree;
    }

    /** The reserved sectors and the two FATs. */
    method WriteHeader(hidden: nat, ghost tree: Dir, ghost n: nat)
      requires Valid() && DirsOk(V(), tree, true, 0) && TreeOk(V(), tree)
      requires FatBoot.BootFits(size / SECTOR, g) && FatBoot.Ascii(title) && hidden < U32
      requires Laid(tree, 2) && TreeLaid(tree, n, ClusterSize(g)) && n == 2 + Size(tree)
      requires next == n + RoomOf(tree, ClusterSize(g))
      modifies this`image
      ensures |image| == size && Finished(image, g, tree)
      ensures FatBoot.BootFields(image, size / SECTOR, g, title, hidden)
    {
      hide FatAt, ClusterSize, Cluster, DirsOk, TreeOk, TreeLaid, SameOutside, Splice, Le32, Offset, Linked, Laid,
        RoomOf, Roomy, Finished, DataStart, FatBoot.BootFields, FatBoot.Ascii, FatBoot.BootFits, FatBoot.BootSector,
        FatBoot.FsInfo;
      ghost var v := V();
      var free := g.clusters - (next - 2);
      var boot := FatBoot.BootSector(size / SECTOR, g, title, hidden);
      var info := FatBoot.FsInfo(next, free);
      SameOutsideSame(image, g);
      WriteReserved(v.img, boot, info);
      FatBoot.BootBack(image, size / SECTOR, g, title, hidden);
      FinishedOf(v, image, tree, n, next, boot);
    }

    method WriteReserved(ghost start: seq<Octet>, boot: seq<Octet>, info: seq<Octet>)
      requires Roomy(start, g) && Roomy(image, g) && SameOutside(start, image, g, 0, 0)
      requires |boot| == |info| == SECTOR && |fat| == g.spf * SECTOR
      modifies this`image
      ensures Roomy(image, g) && SameOutside(start, image, g, 0, 0) && |image| == |old(image)|
      ensures Reserves(image, boot, info, fat)
    {
      hide SameOutside, Roomy, DataStart, Splice, Reserves;
      DataBound(image, g, fat);
      var at := RESERVED * SECTOR;
      ghost var i0 := image;
      PutHeader(start, 0, boot);
      PutHeader(start, SECTOR, info);
      PutHeader(start, 6 * SECTOR, boot);
      PutHeader(start, 7 * SECTOR, info);
      PutHeader(start, at, fat);
      PutHeader(start, at + |fat|, fat);
      HeaderReads(i0, boot, info, fat, at);
    }

    method PutHeader(ghost start: seq<Octet>, o: nat, d: seq<Octet>)
      requires Roomy(start, g) && Roomy(image, g) && SameOutside(start, image, g, 0, 0) &&
               o + |d| <= DataStart(g) <= |image|
      modifies this`image
      ensures Roomy(image, g) && SameOutside(start, image, g, 0, 0) && image == Splice(old(image), o, d) &&
              |image| == |old(image)|
    {
      hide Roomy, SameOutside;
      HeaderSplice(image, g, o, d);
      ghost var was := image;
      image := Splice(image, o, d);
      SameTrans(start, was, image, g, 0, 0, 0);
    }

    /** One cluster of write_chain. */
    method PutPiece(c: nat, chunk: seq<Octet>)
      requires Valid() && IsCluster(g, c) && |chunk| <= ClusterSize(g)
      modifies this`image
      ensures Valid() && |image| == |old(image)| && SameOutside(old(image), image, g, c, c + 1)
      ensures Cluster(image, g, c) == Pad(chunk, ClusterSize(g))
    {
      hide FatAt, Splice, Offset, ClusterSize, DataStart, Cluster;
      var cs := ClusterSize(g);
      ghost var was := image;
      OffsetOrder(g, c, g.clusters + 2);
      var o := Offset(g, c);
      image := Splice(image, o, chunk);
      if |chunk| < cs {
        image := Splice(image, o + |chunk|, Zeros(cs - |chunk|));
        TwoSplices(was, o, chunk, Zeros(cs - |chunk|));
      } else {
        assert Pad(chunk, cs) == chunk;
      }
      PutClusterIs(was, g, c, Pad(chunk, cs));
    }
  }

  /** A whole volume: choose_fat32_layout, the empty builder and finalise. */
  method BuildVolume(total: nat, root: Dir, title: string, hidden: nat) returns (r: Option<seq<Octet>>, tree: Dir)
    requires total / SECTOR <= MAX_SECTORS
    ensures r.Some? <==>
              && total / SECTOR >= MIN_SECTORS && Buildable(Layout(total / SECTOR), root)
              && FatBoot.Ascii(title) && hidden < U32
    ensures r.Some? ==> |r.value| == total && Strip(tree) == Strip(root)
    ensures r.Some? ==>
              var g := FatBoot.Mounted(r.value);
              && g == Some(Layout(total / SECTOR)) && Finished(r.value, g.value, tree)
              && FatBoot.BootFields(r.value, total / SECTOR, g.value, title, hidden)
  {
    hide Fits, Layout, Buildable, Finished, Strip, Singles, FatBoot.BootFields, FatBoot.Ascii, FatBoot.BootFits,
      FatBoot.Mounted;
    var layout := ChooseLayout(total / SECTOR);
    if layout.None? {
      return None, root;
    }
    LayoutLinks(total / SECTOR);
    LayoutBoots(total / SECTOR);
    var builder := new Builder(total, layout.value, title);
    r, tree := builder.Finalise(root, hidden);
    if r.Some? {
      FatBoot.MountBack(r.value, total / SECTOR, layout.value, title, hidden);
    }
  }

  lemma LayoutBoots(total: nat)
    requires MIN_SECTORS <= total <= MAX_SECTORS
    ensures var g := Layout(total);
            && FatBoot.BootFits(total, g) && g.spc > 0 && DataSectors(total, g.spf) > 0
            && g.clusters == ClusterCount(total, g.spf, g.spc)
  {
  }

  /** The first FAT of an image. */
  function FatOf(img: seq<Octet>, g: Geometry): seq<Octet>
    requires (RESERVED + g.spf) * SECTOR <= |img|
  {
    img[RESERVED * SECTOR..(RESERVED + g.spf) * SECTOR]
  }

  /** The number of free clusters according to a FAT. */
  function ZeroCount(fat: seq<Octet>, n: nat): nat
    requires 4 * n <= |fat|
  {
    if n <= 2 then 0 else ZeroCount(fat, n - 1) + if FatAt(fat, n - 1) == 0 then 1 else 0
  }

  lemma {:induction false} ZeroCountIs(fat: seq<Octet>, next: nat, n: nat)
    requires 4 * n <= |fat| && 2 <= next
    requires forall c: nat :: next <= c < n ==> FatAt(fat, c) == 0
    requires forall c: nat :: 2 <= c < next && c < n ==> FatAt(fat, c) > 0
    ensures ZeroCount(fat, n) == if n > next then n - next else 0
    decreases n
  {
    hide FatAt;
    if n > 2 {
      ZeroCountIs(fat, next, n - 1);
    }
  }

  /** The finished image: the reader gets the tree, every directory and file is a linked run that holds it,
      the runs follow one another with nothing but free clusters behind them, both FATs agree, both FSInfo
      sectors count the free clusters of the FAT and name the first of them, and the boot sector has its backup. */
  ghost predicate Finished(img: seq<Octet>, g: Geometry, tree: Dir) {
    && (RESERVED + 2 * g.spf) * SECTOR <= |img|
    && var fat := FatOf(img, g);
       && img[(RESERVED + g.spf) * SECTOR..(RESERVED + 2 * g.spf) * SECTOR] == fat
       && Sized(Volume(fat, img, g)) && Reads(Volume(fat, img, g), tree, true, 0)
       && DirsOk(Volume(fat, img, g), tree, true, 0) && TreeOk(Volume(fat, img, g), tree)
       && FatAt(fat, 0) == MEDIA_MARK && FatAt(fat, 1) == END_MARK
       && Laid(tree, ROOT) && TreeLaid(tree, ROOT + Size(tree), ClusterSize(g))
       && var used := ROOT + Size(tree) + RoomOf(tree, ClusterSize(g));
          && used <= g.clusters + 2 && (forall c: nat :: used <= c < g.clusters + 2 ==> FatAt(fat, c) == 0)
          && FatBoot.InfoAt(img, SECTOR, used, ZeroCount(fat, g.clusters + 2))
          && FatBoot.InfoAt(img, 7 * SECTOR, used, ZeroCount(fat, g.clusters + 2))
          && img[6 * SECTOR..7 * SECTOR] == img[..SECTOR]
  }

  lemma FitsSized(total: nat, g: Geometry, img: seq<Octet>, fat: seq<Octet>)
    requires Fits(total / SECTOR, g) && 0 < g.clusters && g.clusters + 2 <= END_OF_CHAIN
    requires |img| == total && |fat| == g.spf * SECTOR
    ensures Sized(Volume(fat, img, g))
  {
    assert g.clusters * ClusterSize(g) == g.clusters * g.spc * SECTOR;
  }

  lemma EmptyFat(g: Geometry)
    requires 4 * (g.clusters + 2) <= g.spf * SECTOR && 0 < g.clusters
    ensures var fat := SetFat(SetFat(SetFat(Zeros(g.spf * SECTOR), 0, MEDIA_MARK), 1, END_MARK), ROOT, END_MARK);
            && |fat| == g.spf * SECTOR && Singles(fat, 2, 3) && FatAt(fat, 0) == MEDIA_MARK && FatAt(fat, 1) == END_MARK
            && (forall c: nat :: 3 <= c < g.clusters + 2 ==> FatAt(fat, c) == 0)
  {
    hide SetFat, FatAt;
    var n := g.clusters + 2;
    var f0 := Zeros(g.spf * SECTOR);
    var f1 := SetFat(f0, 0, MEDIA_MARK);
    var f2 := SetFat(f1, 1, END_MARK);
    SetFatAll(f0, 0, MEDIA_MARK, n);
    SetFatAll(f1, 1, END_MARK, n);
    SetFatAll(f2, ROOT, END_MARK, n);
    forall c: nat | c < n
      ensures FatAt(f0, c) == 0
    {
      ZeroEntry(f0, c);
    }
  }

  lemma ZeroEntry(fat: seq<Octet>, c: nat)
    requires 4 * (c + 1) <= |fat| && forall i :: 0 <= i < |fat| ==> fat[i] == 0
    ensures FatAt(fat, c) == 0
  {
  }

  lemma RootLaid(root: Dir, kids: Forest)
    requires LaidAll(kids, 3) && StripAll(kids) == StripAll(root.kids)
    ensures Laid(root.(cluster := ROOT, kids := kids), 2) && Strip(root.(cluster := ROOT, kids := kids)) == Strip(root)
  {
  }

  lemma SinglesKept(v: Volume, w: Volume, lo: nat, n: nat, hi: nat)
    requires Sized(v) && Sized(w) && Extends(v, w, n, hi) && n <= v.g.clusters + 2 && Singles(v.fat, lo, n)
    ensures Singles(w.fat, lo, n)
  {
    hide FatAt, ClusterSize, Roomy, SameOutside;
  }

  /** Cluster numbers fit their 32-bit field. */
  lemma {:induction false} TreeOkBounded(v: Volume, d: Dir, a: nat)
    requires Sized(v) && TreeOk(v, d) && Laid(d, a) && a + Size(d) <= v.g.clusters + 2
    ensures TreeBounded(d)
    decreases d
  {
    hide FatAt, ClusterSize, Roomy, Linked, Holds, Clusters;
    ForestOkBounded(v, d.kids, a + 1);
  }

  lemma {:induction false} ForestOkBounded(v: Volume, kids: Forest, a: nat)
    requires Sized(v) && ForestOk(v, kids) && LaidAll(kids, a) && a + Sizes(kids) <= v.g.clusters + 2
    ensures ForestBounded(kids)
    decreases kids
  {
    hide TreeOk, Laid, Size, Roomy, ClusterSize, TreeBounded;
    if kids.Cons? {
      TreeOkBounded(v, kids.first, a);
      ForestOkBounded(v, kids.rest, a + Size(kids.first));
    }
  }

  lemma DataBound(img: seq<Octet>, g: Geometry, fat: seq<Octet>)
    requires Roomy(img, g) && |fat| == g.spf * SECTOR
    ensures DataStart(g) == RESERVED * SECTOR + 2 * |fat| <= |img|
  {
    OffsetStart(g, g.clusters + 2);
  }

  lemma SameOutsideSame(img: seq<Octet>, g: Geometry)
    requires Roomy(img, g)
    ensures SameOutside(img, img, g, 0, 0)
  {
  }

  lemma SliceSlice(s: seq<Octet>, a: nat, b: nat, lo: nat, hi: nat)
    requires a <= lo <= hi <= b <= |s|
    ensures s[a..b][lo - a..hi - a] == s[lo..hi]
  {
    var x, y := s[a..b][lo - a..hi - a], s[lo..hi];
    assert forall k :: 0 <= k < |x| ==> x[k] == y[k];
  }

  /** What the writes of finalise leave in the reserved sectors and the FATs. */
  ghost predicate Reserves(img: seq<Octet>, boot: seq<Octet>, info: seq<Octet>, fat: seq<Octet>) {
    && RESERVED * SECTOR + 2 * |fat| <= |img|
    && img[..SECTOR] == boot && img[SECTOR..2 * SECTOR] == info
    && img[6 * SECTOR..7 * SECTOR] == boot && img[7 * SECTOR..8 * SECTOR] == info
    && var at := RESERVED * SECTOR; img[at..at + |fat|] == fat && img[at + |fat|..at + 2 * |fat|] == fat
  }

  lemma HeaderReads(img: seq<Octet>, boot: seq<Octet>, info: seq<Octet>, fat: seq<Octet>, at: nat)
    requires |boot| == |info| == SECTOR && at == RESERVED * SECTOR && at + 2 * |fat| <= |img|
    ensures var i1 := Splice(img, 0, boot);
            |i1| == |img| &&
            var i2 := Splice(i1, SECTOR, info);
            |i2| == |img| &&
            var i3 := Splice(i2, 6 * SECTOR, boot);
            |i3| == |img| &&
            var i4 := Splice(i3, 7 * SECTOR, info);
            |i4| == |img| &&
            var i5 := Splice(i4, at, fat);
            |i5| == |img| &&
            var i6 := Splice(i5, at + |fat|, fat);
            |i6| == |img| && Reserves(i6, boot, info, fat)
  {
    hide Splice;
    var i1 := Splice(img, 0, boot);
    var i2 := Splice(i1, SECTOR, info);
    var i3 := Splice(i2, 6 * SECTOR, boot);
    var i4 := Splice(i3, 7 * SECTOR, info);
    var i5 := Splice(i4, at, fat);
    SpliceApart(i1, SECTOR, info, 0, SECTOR);
    SpliceApart(i2, 6 * SECTOR, boot, 0, 2 * SECTOR);
    SpliceApart(i3, 7 * SECTOR, info, 0, 7 * SECTOR);
    SpliceApart(i4, at, fat, 0, 8 * SECTOR);
    SpliceApart(i5, at + |fat|, fat, 0, 8 * SECTOR);
    SpliceApart(i5, at + |fat|, fat, at, at + |fat|);
    var i6 := Splice(i5, at + |fat|, fat);
    SamePart(i3, i2, 2 * SECTOR, 0, SECTOR);
    SamePart(i3, i2, 2 * SECTOR, SECTOR, 2 * SECTOR);
    SamePart(i4, i3, 7 * SECTOR, 0, SECTOR);
    SamePart(i4, i3, 7 * SECTOR, SECTOR, 2 * SECTOR);
    SamePart(i4, i3, 7 * SECTOR, 6 * SECTOR, 7 * SECTOR);
    SamePart(i6, i4, 8 * SECTOR, 0, SECTOR);
    SamePart(i6, i4, 8 * SECTOR, SECTOR, 2 * SECTOR);
    SamePart(i6, i4, 8 * SECTOR, 6 * SECTOR, 7 * SECTOR);
    SamePart(i6, i4, 8 * SECTOR, 7 * SECTOR, 8 * SECTOR);
  }

  lemma SamePart(s: seq<Octet>, t: seq<Octet>, n: nat, lo: nat, hi: nat)
    requires n <= |s| && n <= |t| && s[0..n] == t[0..n] && lo <= hi <= n
    ensures s[lo..hi] == t[lo..hi]
  {
    SliceSlice(s, 0, n, lo, hi);
    SliceSlice(t, 0, n, lo, hi);
  }

  lemma {:induction false} DirsSame(v: Volume, w: Volume, d: Dir, root: bool, parent: nat)
    requires Sized(v) && Sized(w) && Rewrites(v, w, 0, 0) && DirsOk(v, d, root, parent) && Laid(d, d.cluster)
    ensures DirsOk(w, d, root, parent)
  {
    hide Rewrites, DirsOk, Laid;
    DirsBeside(v, w, 0, 0, d, root, parent, d.cluster);
  }

  lemma FinishedOf(v: Volume, img: seq<Octet>, tree: Dir, n: nat, next: nat, boot: seq<Octet>)
    requires Sized(v) && Roomy(img, v.g) && SameOutside(v.img, img, v.g, 0, 0) && |v.fat| == v.g.spf * SECTOR
    requires DirsOk(v, tree, true, 0) && TreeOk(v, tree) && Laid(tree, 2) && TreeLaid(tree, n, ClusterSize(v.g)) &&
             n == 2 + Size(tree)
    requires next == n + RoomOf(tree, ClusterSize(v.g)) <= v.g.clusters + 2
    requires forall c: nat :: next <= c < v.g.clusters + 2 ==> FatAt(v.fat, c) == 0
    requires forall c: nat :: 2 <= c < next ==> FatAt(v.fat, c) > 0
    requires FatAt(v.fat, 0) == MEDIA_MARK && FatAt(v.fat, 1) == END_MARK
    requires Reserves(img, boot, FatBoot.FsInfo(next, v.g.clusters + 2 - next), v.fat)
    ensures Finished(img, v.g, tree)
  {
    hide FatAt, ClusterSize, Cluster, DirsOk, TreeOk, TreeLaid, SameOutside, Reads, RoomOf, FatBoot.FsInfo,
      FatBoot.InfoAt;
    var w := Volume(v.fat, img, v.g);
    assert FatOf(img, v.g) == v.fat;
    ZeroCountIs(v.fat, next, v.g.clusters + 2);
    FatBoot.InfoBack(img, SECTOR, next, v.g.clusters + 2 - next);
    FatBoot.InfoBack(img, 7 * SECTOR, next, v.g.clusters + 2 - next);
    DirsSame(v, w, tree, true, 0);
    TreeBeside(v, w, 0, 0, tree, n);
    TreeReads(w, tree, true, 0);
  }

  /** Each of these clusters is a chain of its own. */
  predicate Singles(fat: seq<Octet>, lo: nat, hi: nat) {
    4 * hi <= |fat| && forall c: nat :: lo <= c < hi ==> FatAt(fat, c) >= END_OF_CHAIN
  }

  lemma SinglesNone(fat: seq<Octet>, n: nat)
    requires 4 * n <= |fat|
    ensures Singles(fat, n, n)
  {
  }

  lemma OneCluster(fat: seq<Octet>, c: nat)
    requires 4 * (c + 1) <= |fat| && Linked(fat, c, 1)
    ensures Singles(fat, c, c + 1)
  {
  }

  lemma SinglesMore(v: Volume, w: Volume, lo: nat, mid: nat, hi: nat)
    requires Sized(v) && Sized(w) && Extends(v, w, mid, mid) && lo <= mid <= hi <= v.g.clusters + 2
    requires Singles(v.fat, lo, mid) && Singles(w.fat, mid, hi)
    ensures Singles(w.fat, lo, hi)
  {
    hide FatAt, ClusterSize, Roomy;
  }

  lemma SinglesPart(fat: seq<Octet>, lo: nat, mid: nat, hi: nat)
    requires lo <= mid <= hi
    ensures Singles(fat, lo, hi) ==> Singles(fat, mid, hi)
  {
  }

  lemma SinglesSplit(fat: seq<Octet>, lo: nat, mid: nat, hi: nat)
    requires lo <= mid <= hi && Singles(fat, lo, hi)
    ensures Singles(fat, lo, mid) && Singles(fat, mid, hi)
  {
  }

  lemma SingleLinked(fat: seq<Octet>, lo: nat, hi: nat, c: nat)
    requires Singles(fat, lo, hi) && lo <= c < hi
    ensures Linked(fat, c, 1)
  {
  }

  lemma ExtendsSame(v: Volume, n: nat)
    requires Sized(v)
    ensures Extends(v, v, n, n)
  {
  }

  lemma ExtendsFlat(u: Volume, v: Volume, w: Volume, lo: nat, mid: nat)
    requires Sized(u) && Sized(v) && Sized(w) && lo <= mid && Extends(u, v, lo, lo) && Extends(v, w, mid, mid)
    ensures Extends(u, w, lo, lo)
  {
    hide FatAt, Cluster, ClusterSize, Roomy;
  }

  lemma ExtendsWrite(u: Volume, v: Volume, w: Volume, lo: nat, hi: nat)
    requires Sized(u) && Sized(v) && Sized(w) && lo <= hi && Extends(u, v, lo, lo) && Extends(v, w, lo, hi)
    ensures Extends(u, w, lo, hi)
  {
    hide FatAt, Cluster, ClusterSize, Roomy;
  }

  lemma RewritesSame(v: Volume, lo: nat, hi: nat)
    requires Sized(v)
    ensures Rewrites(v, v, lo, hi)
  {
  }

  lemma WroteOnly(v: Volume, w: Volume, lo: nat, hi: nat)
    requires Sized(v) && Sized(w) && Extends(v, w, lo, hi) && w.fat == v.fat
    ensures Rewrites(v, w, lo, hi)
  {
  }

  lemma RewritesMore(v: Volume, w: Volume, lo: nat, mid: nat, hi: nat)
    requires Sized(v) && Sized(w) && Rewrites(v, w, lo, mid) && mid <= hi
    ensures Rewrites(v, w, lo, hi)
  {
    hide Cluster, ClusterSize, Roomy;
  }

  lemma RewritesTrans(u: Volume, v: Volume, w: Volume, lo: nat, mid: nat, hi: nat)
    requires Sized(u) && Sized(v) && Sized(w) && Rewrites(u, v, lo, mid) && Rewrites(v, w, mid, hi) && lo <= mid <= hi
    ensures Rewrites(u, w, lo, hi)
  {
    hide Cluster, ClusterSize, Roomy;
  }

  lemma NoFiles(a: nat, cs: nat)
    requires cs > 0
    ensures FilesLaid([], a, cs) && Room([], cs) == 0 && StripFiles([]) == []
  {
  }

  lemma {:induction false} MoreFiles(files: seq<FileNode>, f: FileNode, a: nat, cs: nat)
    requires cs > 0 && FilesLaid(files, a, cs) && f.cluster == a + Room(files, cs)
    ensures FilesLaid(files + [f], a, cs) && Room(files + [f], cs) == Room(files, cs) + Clusters(|f.data|, cs)
    decreases |files|
  {
    hide Clusters;
    if files == [] {
      assert files + [f] == [f] && [f][1..] == [];
    } else {
      MoreFiles(files[1..], f, a + Clusters(|files[0].data|, cs), cs);
      assert (files + [f])[1..] == files[1..] + [f];
    }
  }

  lemma {:induction false} StripMore(files: seq<FileNode>, i: nat)
    requires i < |files|
    ensures StripFiles(files[..i + 1]) == StripFiles(files[..i]) + [files[i].(cluster := 0)]
    decreases i
  {
    if i > 0 {
      StripMore(files[1..], i - 1);
      assert files[..i + 1][1..] == files[1..][..i] && files[..i][1..] == files[1..][..i - 1];
    } else {
      assert files[..1][1..] == [];
    }
  }

  lemma {:induction false} StripOne(out: seq<FileNode>, f: FileNode, e: FileNode)
    requires f.(cluster := 0) == e.(cluster := 0)
    ensures StripFiles(out + [f]) == StripFiles(out) + [e.(cluster := 0)]
    decreases |out|
  {
    if out == [] {
      assert out + [f] == [f] && [f][1..] == [];
    } else {
      StripOne(out[1..], f, e);
      assert (out + [f])[1..] == out[1..] + [f];
    }
  }

  // When a tree can be built.

  /** The entries of a directory, without the closing zero entry. */
  function Entries(d: Dir, root: bool): nat {
    (if root then 0 else 2) + |Dirs(d.kids)| + |d.files|
  }

  /** Every directory has legal names and fits its cluster. */
  predicate Recordable(d: Dir, root: bool, cs: nat) {
    NamesOk(d) && 32 * (Entries(d, root) + 1) <= cs && RecordableAll(d.kids, cs)
  }

  predicate RecordableAll(kids: Forest, cs: nat) {
    match kids
    case Nil => true
    case Cons(d, rest) => Recordable(d, false, cs) && RecordableAll(rest, cs)
  }

  /** The directories, one cluster each, and the files fit the volume. */
  predicate Buildable(g: Geometry, root: Dir) {
    ClusterSize(g) > 0 && Recordable(root, true, ClusterSize(g)) &&
    ROOT + Size(root) + RoomOf(root, ClusterSize(g)) <= g.clusters + 2
  }

  lemma BuildableStrip(g: Geometry, d: Dir, e: Dir)
    requires ClusterSize(g) > 0 && Strip(d) == Strip(e)
    ensures Buildable(g, d) == Buildable(g, e) && Size(d) == Size(e)
    ensures RoomOf(d, ClusterSize(g)) == RoomOf(e, ClusterSize(g))
    ensures Recordable(d, true, ClusterSize(g)) == Recordable(e, true, ClusterSize(g))
  {
    hide Strip, Recordable, RoomOf, ClusterSize;
    StripSize(d);
    StripSize(e);
    StripRoomOf(d, ClusterSize(g));
    StripRoomOf(e, ClusterSize(g));
    StripRecordable(d, true, ClusterSize(g));
    StripRecordable(e, true, ClusterSize(g));
  }

  lemma {:induction false} StripSize(d: Dir)
    ensures Size(Strip(d)) == Size(d)
  {
    StripSizes(d.kids);
  }

  lemma {:induction false} StripSizes(kids: Forest)
    ensures Sizes(StripAll(kids)) == Sizes(kids)
  {
    if kids.Cons? {
      StripSize(kids.first);
      StripSizes(kids.rest);
    }
  }

  lemma {:induction false} StripRoom(files: seq<FileNode>, cs: nat)
    requires cs > 0
    ensures Room(StripFiles(files), cs) == Room(files, cs)
  {
    hide Clusters;
    if files != [] {
      StripRoom(files[1..], cs);
      assert StripFiles(files)[1..] == StripFiles(files[1..]);
    }
  }

  lemma {:induction false} StripRoomOf(d: Dir, cs: nat)
    requires cs > 0
    ensures RoomOf(Strip(d), cs) == RoomOf(d, cs)
  {
    StripRoom(d.files, cs);
    StripRoomAll(d.kids, cs);
  }

  lemma {:induction false} StripRoomAll(kids: Forest, cs: nat)
    requires cs > 0
    ensures RoomAll(StripAll(kids), cs) == RoomAll(kids, cs)
  {
    if kids.Cons? {
      StripRoomOf(kids.first, cs);
      StripRoomAll(kids.rest, cs);
    }
  }

  lemma {:induction false} RoomUpTo(files: seq<FileNode>, i: nat, cs: nat)
    requires cs > 0 && i < |files|
    ensures Room(files[..i], cs) + Clusters(|files[i].data|, cs) <= Room(files, cs)
    decreases i
  {
    hide Clusters;
    if i > 0 {
      RoomUpTo(files[1..], i - 1, cs);
      assert files[..i][1..] == files[1..][..i - 1];
    }
  }

  lemma {:induction false} StripFilesAt(files: seq<FileNode>)
    ensures |StripFiles(files)| == |files|
    ensures forall i :: 0 <= i < |files| ==> StripFiles(files)[i] == files[i].(cluster := 0)
  {
    if files != [] {
      StripFilesAt(files[1..]);
    }
  }

  lemma {:induction false} StripDirsAt(kids: Forest)
    ensures |Dirs(StripAll(kids))| == |Dirs(kids)|
    ensures forall i :: 0 <= i < |Dirs(kids)| ==> Dirs(StripAll(kids))[i] == Strip(Dirs(kids)[i])
  {
    if kids.Cons? {
      StripDirsAt(kids.rest);
    }
  }

  lemma StripNames(d: Dir)
    ensures NamesOk(Strip(d)) == NamesOk(d)
  {
    hide FatName;
    StripFilesAt(d.files);
    StripDirsAt(d.kids);
    var e := Strip(d);
    assert forall i :: 0 <= i < |d.files| ==> e.files[i].name == d.files[i].name && e.files[i].data == d.files[i].data;
    assert forall i :: 0 <= i < |Dirs(d.kids)| ==> Dirs(e.kids)[i].name == Dirs(d.kids)[i].name;
  }

  lemma {:induction false} StripRecordable(d: Dir, root: bool, cs: nat)
    ensures Recordable(Strip(d), root, cs) == Recordable(d, root, cs)
  {
    hide NamesOk;
    StripNames(d);
    StripFilesAt(d.files);
    StripDirsAt(d.kids);
    StripRecordableAll(d.kids, cs);
  }

  lemma {:induction false} StripRecordableAll(kids: Forest, cs: nat)
    ensures RecordableAll(StripAll(kids), cs) == RecordableAll(kids, cs)
  {
    if kids.Cons? {
      StripRecordable(kids.first, false, cs);
      StripRecordableAll(kids.rest, cs);
    }
  }

  lemma RecordsCount(d: Dir, root: bool, parent: nat)
    ensures |Records(d, root, parent)| == Entries(d, root)
  {
    SortLength(Dirs(d.kids), (d: Dir) => d.name);
    SortLength(d.files, (f: FileNode) => f.name);
  }

  lemma SortLength<T>(s: seq<T>, key: T -> string)
    ensures |SortBy(s, key)| == |s|
  {
    SortMultiset(s, key);
    assert |multiset(SortBy(s, key))| == |multiset(s)|;
  }

  predicate NamesOk(d: Dir) {
    && (forall k :: k in Dirs(d.kids) ==> FatName(k.name).Some?)
    && (forall f :: f in d.files ==> FatName(f.name).Some? && |f.data| < U32)
  }

  predicate TreeBounded(d: Dir) {
    d.cluster < U32 && (forall f :: f in d.files ==> f.cluster < U32) && ForestBounded(d.kids)
  }

  predicate ForestBounded(kids: Forest) {
    match kids
    case Nil => true
    case Cons(d, rest) => TreeBounded(d) && ForestBounded(rest)
  }

  lemma {:induction false} KidBounded(kids: Forest, k: Dir)
    requires ForestBounded(kids) && k in Dirs(kids)
    ensures k.cluster < U32
  {
    if k != kids.first {
      KidBounded(kids.rest, k);
    }
  }

  /** Every entry of a directory can be encoded. */
  lemma WritableOf(d: Dir, root: bool, parent: nat)
    requires NamesOk(d) && TreeBounded(d) && parent < U32
    ensures Writable(d, root, parent)
  {
    hide FatName, DirRecord, FileRecord, SortBy, Spaces;
    var ds, fs := SortedDirs(d.kids), SortedFiles(d.files);
    SortMultiset(Dirs(d.kids), (e: Dir) => e.name);
    SortMultiset(d.files, (f: FileNode) => f.name);
    forall i | 0 <= i < |ds|
      ensures Encodable(DirRecord(ds[i]))
    {
      SortedIn(Dirs(d.kids), (e: Dir) => e.name, i);
      KidBounded(d.kids, ds[i]);
      DirEncodable(ds[i]);
    }
    forall i | 0 <= i < |fs|
      ensures Encodable(FileRecord(fs[i]))
    {
      SortedIn(d.files, (f: FileNode) => f.name, i);
      FileEncodable(fs[i]);
    }
    DotsEncodable(d.cluster, parent);
  }

  lemma SortedIn<T(!new)>(s: seq<T>, key: T -> string, i: nat)
    requires i < |SortBy(s, key)|
    ensures SortBy(s, key)[i] in s
  {
    SortMultiset(s, key);
    assert SortBy(s, key)[i] in multiset(SortBy(s, key));
  }

  lemma DirEncodable(d: Dir)
    requires FatName(d.name).Some? && d.cluster < U32
    ensures Encodable(DirRecord(d))
  {
    hide FatName;
    NameStart(d.name);
  }

  lemma FileEncodable(f: FileNode)
    requires FatName(f.name).Some? && f.cluster < U32 && |f.data| < U32
    ensures Encodable(FileRecord(f))
  {
    hide FatName;
    NameStart(f.name);
  }

  lemma DotsEncodable(cluster: nat, parent: nat)
    requires cluster < U32 && parent < U32
    ensures forall r :: r in Dots(cluster, parent) ==> Encodable(r)
  {
  }

  lemma SomeClusters(n: nat, cs: nat)
    requires cs > 0
    ensures Clusters(n, cs) > 0
  {
  }

  lemma SetFatAll(fat: seq<Octet>, c: nat, v: nat, n: nat)
    requires 4 * n <= |fat| && c < n && v < MASK
    ensures forall d: nat :: d < n ==> FatAt(SetFat(fat, c, v), d) == if d == c then v else FatAt(fat, d)
  {
    hide FatAt, SetFat;
    forall d: nat | d < n
      ensures FatAt(SetFat(fat, c, v), d) == if d == c then v else FatAt(fat, d)
    {
      SetFatAt(fat, c, v, d);
    }
  }

  lemma SameStart(img: seq<Octet>, g: Geometry, c: nat, d: seq<Octet>)
    requires Roomy(img, g) && 2 <= c <= g.clusters + 2
    ensures SameOutside(img, img, g, c, c) && Prefix(img, g, c, 0, d)
  {
  }
}
