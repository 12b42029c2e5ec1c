/** The cluster chains of a finished FAT32 image: every directory and file has clusters of its own, and
    every cluster the FAT marks as taken belongs to one of them. */
module FatChains {
  import opened FatLayout
  import opened FatVolume
  import opened FatBuilder

  // The clusters a reader visits.

  /** The clusters met when the FAT is followed from c. */
  function Visited(fat: seq<Octet>, g: Geometry, c: nat, fuel: nat): seq<nat>
    requires 4 * (g.clusters + 2) <= |fat|
    decreases fuel
  {
    if fuel == 0 || !IsCluster(g, c) then []
    else
      var next := FatAt(fat, c);
      [c] + if next >= END_OF_CHAIN then [] else Visited(fat, g, next, fuel - 1)
  }

  /** The bytes of some clusters, one after the other. */
  function Contents(img: seq<Octet>, g: Geometry, cs: seq<nat>): seq<Octet>
    requires Roomy(img, g) && forall c :: c in cs ==> IsCluster(g, c)
  {
    if cs == [] then [] else Cluster(img, g, cs[0]) + Contents(img, g, cs[1..])
  }

  lemma {:induction false} VisitsClusters(fat: seq<Octet>, g: Geometry, c: nat, fuel: nat)
    requires 4 * (g.clusters + 2) <= |fat|
    ensures forall d :: d in Visited(fat, g, c, fuel) ==> IsCluster(g, d)
    decreases fuel
  {
    hide FatAt;
    if fuel > 0 && IsCluster(g, c) && FatAt(fat, c) < END_OF_CHAIN {
      VisitsClusters(fat, g, FatAt(fat, c), fuel - 1);
    }
  }

  /** Reading a chain reads the clusters it visits. */
  lemma {:induction false} ReadsVisited(fat: seq<Octet>, img: seq<Octet>, g: Geometry, c: nat, fuel: nat)
    requires Roomy(img, g) && 4 * (g.clusters + 2) <= |fat|
    ensures (forall d :: d in Visited(fat, g, c, fuel) ==> IsCluster(g, d)) &&
            ReadChain(fat, img, g, c, fuel) == Contents(img, g, Visited(fat, g, c, fuel))
    decreases fuel
  {
    hide FatAt, Cluster, Roomy;
    VisitsClusters(fat, g, c, fuel);
    if fuel > 0 && IsCluster(g, c) {
      var next := FatAt(fat, c);
      var rest := if next >= END_OF_CHAIN then [] else Visited(fat, g, next, fuel - 1);
      assert Visited(fat, g, c, fuel) == [c] + rest && ([c] + rest)[1..] == rest;
      if next < END_OF_CHAIN {
        ReadsVisited(fat, img, g, next, fuel - 1);
      }
    }
  }

  /** A linked run is visited from its first cluster to its last, each once. */
  lemma {:induction false} LinkedVisits(fat: seq<Octet>, g: Geometry, c: nat, count: nat, fuel: nat)
    requires 4 * (g.clusters + 2) <= |fat| && IsRun(g, c, count) && count <= fuel && Linked(fat, c, count)
    ensures Visited(fat, g, c, fuel) == seq(count, i requires 0 <= i < count => c + i)
    decreases count
  {
    hide FatAt, Linked;
    LinkedFirst(fat, c, count);
    if count > 1 {
      LinkedVisits(fat, g, c + 1, count - 1, fuel - 1);
    }
  }

  lemma ZerosJoin(a: nat, b: nat)
    ensures Zeros(a) + Zeros(b) == Zeros(a + b)
  {
  }

  /** One more cluster of a chain: the data goes on, or zeros follow zeros. */
  lemma PadMore(d: seq<Octet>, cs: nat, rest: nat)
    requires |Drop(d, cs)| <= rest
    ensures |d| <= cs + rest && Pad(Take(d, cs), cs) + Pad(Drop(d, cs), rest) == Pad(d, cs + rest)
  {
    if |d| <= cs {
      ZerosJoin(cs - |d|, rest);
      assert Pad(Drop(d, cs), rest) == Zeros(rest);
    } else {
      assert Take(d, cs) + Drop(d, cs) == d && Pad(Take(d, cs), cs) == Take(d, cs);
    }
  }

  lemma OneMore(n: nat, s: nat)
    requires n > 0
    ensures s + (n - 1) * s == n * s
  {
  }

  /** A chain reads as its data and zeros up to the end of its last cluster, nothing else. */
  lemma {:induction false} ChainExact(fat: seq<Octet>, img: seq<Octet>, g: Geometry, c: nat, count: nat, d: seq<Octet>,
                                      fuel: nat)
    requires Roomy(img, g) && 4 * (g.clusters + 2) <= |fat| && IsRun(g, c, count) && count <= fuel
    requires Linked(fat, c, count) && Holds(img, g, c, count, d)
    ensures |d| <= count * ClusterSize(g) && ReadChain(fat, img, g, c, fuel) == Pad(d, count * ClusterSize(g))
    decreases count
  {
    hide Cluster, Roomy, ClusterSize, FatAt, Linked, Take, Drop, Pad;
    var cs := ClusterSize(g);
    LinkedFirst(fat, c, count);
    HoldsFirst(img, g, c, count, d);
    OneMore(count, cs);
    if count > 1 {
      ChainExact(fat, img, g, c + 1, count - 1, Drop(d, cs), fuel - 1);
      PadMore(d, cs, (count - 1) * cs);
    } else {
      PadMore(d, cs, 0);
      assert Pad([], 0) == [];
    }
  }

  /** What a reader gets of a directory or file: its bytes, and zeros up to the end of its last cluster. */
  lemma RunExact(v: Volume, c: nat, d: seq<Octet>)
    requires Sized(v) && RunOk(v, c, d)
    ensures var n := Clusters(|d|, ClusterSize(v.g)) * ClusterSize(v.g);
            |d| <= n && Chain(v, c) == Pad(d, n)
  {
    hide FatAt, Cluster, ClusterSize, Clusters, Roomy, Linked, Holds, Pad;
    ChainExact(v.fat, v.img, v.g, c, Clusters(|d|, ClusterSize(v.g)), d, v.g.clusters);
  }

  // The runs of a tree.

  /** The clusters of one directory or file. */
  datatype Run = Run(first: nat, count: nat)

  /** The directories in the order they are allocated: each takes one cluster. */
  function DirRuns(d: Dir): seq<Run> { [Run(d.cluster, 1)] + KidRuns(d.kids) }

  function KidRuns(kids: Forest): seq<Run> {
    match kids
    case Nil => []
    case Cons(d, rest) => DirRuns(d) + KidRuns(rest)
  }

  /** The files of one directory. */
  function FileRuns(files: seq<FileNode>, cs: nat): seq<Run>
    requires cs > 0
  {
    if files == [] then [] else [Run(files[0].cluster, Clusters(|files[0].data|, cs))] + FileRuns(files[1..], cs)
  }

  /** The files of a subtree in the order they are written. */
  function TreeRuns(d: Dir, cs: nat): seq<Run>
    requires cs > 0
  {
    FileRuns(d.files, cs) + ForestRuns(d.kids, cs)
  }

  function ForestRuns(kids: Forest, cs: nat): seq<Run>
    requires cs > 0
  {
    match kids
    case Nil => []
    case Cons(d, rest) => TreeRuns(d, cs) + ForestRuns(rest, cs)
  }

  /** All directories and files of a tree. */
  function Runs(tree: Dir, cs: nat): seq<Run>
    requires cs > 0
  {
    DirRuns(tree) + TreeRuns(tree, cs)
  }

  function Total(rs: seq<Run>): nat {
    if rs == [] then 0 else rs[0].count + Total(rs[1..])
  }

  /** The runs follow one another from cluster a on. */
  predicate Packed(rs: seq<Run>, a: nat) {
    rs == [] || (rs[0].first == a && Packed(rs[1..], a + rs[0].count))
  }

  lemma {:induction false} PackedJoin(rs: seq<Run>, qs: seq<Run>, a: nat)
    requires Packed(rs, a) && Packed(qs, a + Total(rs))
    ensures Packed(rs + qs, a) && Total(rs + qs) == Total(rs) + Total(qs)
    decreases |rs|
  {
    if rs == [] {
      assert rs + qs == qs;
    } else {
      PackedJoin(rs[1..], qs, a + rs[0].count);
      assert (rs + qs)[1..] == rs[1..] + qs;
    }
  }

  lemma {:induction false} DirsPacked(d: Dir, a: nat)
    requires Laid(d, a)
    ensures Packed(DirRuns(d), a) && Total(DirRuns(d)) == Size(d)
  {
    KidsPacked(d.kids, a + 1);
    assert DirRuns(d)[1..] == KidRuns(d.kids);
  }

  lemma {:induction false} KidsPacked(kids: Forest, a: nat)
    requires LaidAll(kids, a)
    ensures Packed(KidRuns(kids), a) && Total(KidRuns(kids)) == Sizes(kids)
  {
    hide DirRuns, Laid, Size;
    if kids.Cons? {
      DirsPacked(kids.first, a);
      KidsPacked(kids.rest, a + Size(kids.first));
      PackedJoin(DirRuns(kids.first), KidRuns(kids.rest), a);
    }
  }

  lemma {:induction false} FilesPacked(files: seq<FileNode>, a: nat, cs: nat)
    requires cs > 0 && FilesLaid(files, a, cs)
    ensures Packed(FileRuns(files, cs), a) && Total(FileRuns(files, cs)) == Room(files, cs)
    decreases |files|
  {
    hide Clusters;
    if files != [] {
      FilesPacked(files[1..], a + Clusters(|files[0].data|, cs), cs);
      assert FileRuns(files, cs)[1..] == FileRuns(files[1..], cs);
    }
  }

  lemma {:induction false} TreePacked(d: Dir, a: nat, cs: nat)
    requires cs > 0 && TreeLaid(d, a, cs)
    ensures Packed(TreeRuns(d, cs), a) && Total(TreeRuns(d, cs)) == RoomOf(d, cs)
    decreases d
  {
    hide FilesLaid, Room, FileRuns;
    FilesPacked(d.files, a, cs);
    ForestPacked(d.kids, a + Room(d.files, cs), cs);
    PackedJoin(FileRuns(d.files, cs), ForestRuns(d.kids, cs), a);
  }

  lemma {:induction false} ForestPacked(kids: Forest, a: nat, cs: nat)
    requires cs > 0 && ForestLaid(kids, a, cs)
    ensures Packed(ForestRuns(kids, cs), a) && Total(ForestRuns(kids, cs)) == RoomAll(kids, cs)
    decreases kids
  {
    hide TreeLaid, RoomOf, TreeRuns;
    if kids.Cons? {
      TreePacked(kids.first, a, cs);
      ForestPacked(kids.rest, a + RoomOf(kids.first, cs), cs);
      PackedJoin(TreeRuns(kids.first, cs), ForestRuns(kids.rest, cs), a);
    }
  }

  /** The runs of a laid tree follow one another from the root directory on. */
  lemma RunsPacked(tree: Dir, cs: nat)
    requires cs > 0 && Laid(tree, ROOT) && TreeLaid(tree, ROOT + Size(tree), cs)
    ensures Packed(Runs(tree, cs), ROOT) && Total(Runs(tree, cs)) == Size(tree) + RoomOf(tree, cs)
  {
    hide Laid, TreeLaid, Size, RoomOf, DirRuns, TreeRuns, Packed, Total;
    DirsPacked(tree, ROOT);
    TreePacked(tree, ROOT + Size(tree), cs);
    PackedJoin(DirRuns(tree), TreeRuns(tree, cs), ROOT);
  }

  /** A run of a packed list lies between its two ends. */
  lemma {:induction false} PackedBounds(rs: seq<Run>, a: nat, i: nat)
    requires Packed(rs, a) && i < |rs|
    ensures a <= rs[i].first && rs[i].first + rs[i].count <= a + Total(rs)
    decreases i
  {
    if i > 0 {
      PackedBounds(rs[1..], a + rs[0].count, i - 1);
    }
  }

  /** An earlier run ends before a later one begins. */
  lemma {:induction false} PackedOrder(rs: seq<Run>, a: nat, i: nat, j: nat)
    requires Packed(rs, a) && i < j < |rs|
    ensures rs[i].first + rs[i].count <= rs[j].first
    decreases i
  {
    if i > 0 {
      PackedOrder(rs[1..], a + rs[0].count, i - 1, j - 1);
    } else {
      PackedBounds(rs[1..], a + rs[0].count, j - 1);
    }
  }

  /** Packed runs leave no gap. */
  lemma {:induction false} PackedCovers(rs: seq<Run>, a: nat, c: nat) returns (i: nat)
    requires Packed(rs, a) && a <= c < a + Total(rs)
    ensures i < |rs| && rs[i].first <= c < rs[i].first + rs[i].count
    decreases |rs|
  {
    if c < a + rs[0].count {
      i := 0;
    } else {
      i := PackedCovers(rs[1..], a + rs[0].count, c);
      i := i + 1;
    }
  }

  // Every run is a chain of the volume.

  predicate IsChain(v: Volume, r: Run)
    requires Sized(v)
  {
    r.count > 0 && IsRun(v.g, r.first, r.count) && Linked(v.fat, r.first, r.count)
  }

  predicate AllChains(v: Volume, rs: seq<Run>)
    requires Sized(v)
  {
    forall r :: r in rs ==> IsChain(v, r)
  }

  lemma RunIsChain(v: Volume, c: nat, d: seq<Octet>)
    requires Sized(v) && RunOk(v, c, d)
    ensures IsChain(v, Run(c, Clusters(|d|, ClusterSize(v.g))))
  {
    hide FatAt, Holds, ClusterSize;
    SomeClusters(|d|, ClusterSize(v.g));
  }

  lemma {:induction false} DirChains(v: Volume, d: Dir, root: bool, parent: nat)
    requires Sized(v) && DirsOk(v, d, root, parent)
    ensures AllChains(v, DirRuns(d))
    decreases d
  {
    hide RunOk, IsChain, ClusterSize, Bytes, Writable, Clusters;
    ClustersOne(|Bytes(d, root, parent)|, ClusterSize(v.g));
    RunIsChain(v, d.cluster, Bytes(d, root, parent));
    KidChains(v, d.kids, d.cluster);
  }

  lemma {:induction false} KidChains(v: Volume, kids: Forest, parent: nat)
    requires Sized(v) && DirsAllOk(v, kids, parent)
    ensures AllChains(v, KidRuns(kids))
    decreases kids
  {
    hide DirsOk, IsChain, DirRuns;
    if kids.Cons? {
      DirChains(v, kids.first, false, parent);
      KidChains(v, kids.rest, parent);
    }
  }

  lemma {:induction false} FileChains(v: Volume, files: seq<FileNode>)
    requires Sized(v) && forall f :: f in files ==> RunOk(v, f.cluster, f.data)
    ensures AllChains(v, FileRuns(files, ClusterSize(v.g)))
    decreases |files|
  {
    hide RunOk, IsChain, ClusterSize, Clusters;
    if files != [] {
      RunIsChain(v, files[0].cluster, files[0].data);
      FileChains(v, files[1..]);
    }
  }

  lemma {:induction false} TreeChains(v: Volume, d: Dir)
    requires Sized(v) && TreeOk(v, d)
    ensures AllChains(v, TreeRuns(d, ClusterSize(v.g)))
    decreases d
  {
    hide RunOk, IsChain, ClusterSize, FileRuns;
    FileChains(v, d.files);
    ForestChains(v, d.kids);
  }

  lemma {:induction false} ForestChains(v: Volume, kids: Forest)
    requires Sized(v) && ForestOk(v, kids)
    ensures AllChains(v, ForestRuns(kids, ClusterSize(v.g)))
    decreases kids
  {
    hide TreeOk, IsChain, ClusterSize, TreeRuns;
    if kids.Cons? {
      TreeChains(v, kids.first);
      ForestChains(v, kids.rest);
    }
  }

  // A finished image.

  /** The volume a reader sees in a finished image. */
  ghost function VolumeOf(img: seq<Octet>, g: Geometry, tree: Dir): (v: Volume)
    requires Finished(img, g, tree)
    ensures Sized(v) && v.g == g && v.img == img && ClusterSize(g) > 0
  {
    Volume(FatOf(img, g), img, g)
  }

  /** The clusters of the i-th directory or file of the tree, as found by following the FAT. */
  ghost function ChainOf(img: seq<Octet>, g: Geometry, tree: Dir, i: nat): seq<nat>
    requires Finished(img, g, tree) && i < |Runs(tree, ClusterSize(g))|
  {
    var v := VolumeOf(img, g, tree);
    Visited(v.fat, g, Runs(tree, ClusterSize(g))[i].first, g.clusters)
  }

  lemma FinishedRuns(img: seq<Octet>, g: Geometry, tree: Dir)
    requires Finished(img, g, tree)
    ensures ClusterSize(g) > 0
    ensures var rs := Runs(tree, ClusterSize(g));
            Packed(rs, ROOT) && ROOT + Total(rs) <= g.clusters + 2 && AllChains(VolumeOf(img, g, tree), rs)
  {
    hide DirsOk, TreeOk, Laid, TreeLaid, Size, RoomOf, DirRuns, TreeRuns, Packed, Total, Reads, Sized, IsChain,
      ClusterSize, FatAt, ZeroCount;
    var v := VolumeOf(img, g, tree);
    RunsPacked(tree, ClusterSize(g));
    DirChains(v, tree, true, 0);
    TreeChains(v, tree);
  }

  /** Behind the last run every cluster is free. */
  lemma FreeBehind(img: seq<Octet>, g: Geometry, tree: Dir, c: nat)
    requires Finished(img, g, tree) && IsCluster(g, c) && FatAt(VolumeOf(img, g, tree).fat, c) != 0
    ensures ClusterSize(g) > 0 && c < ROOT + Total(Runs(tree, ClusterSize(g)))
  {
    hide DirsOk, TreeOk, Laid, TreeLaid, Size, RoomOf, Runs, Packed, Total, Reads, Sized, ClusterSize, FatAt,
      ZeroCount;
    var v := VolumeOf(img, g, tree);
    RunsPacked(tree, ClusterSize(g));
  }

  /** The chain of a directory or file has exactly its clusters. */
  lemma ChainIsRun(img: seq<Octet>, g: Geometry, tree: Dir, i: nat)
    requires Finished(img, g, tree) && i < |Runs(tree, ClusterSize(g))|
    ensures var r := Runs(tree, ClusterSize(g))[i];
            ChainOf(img, g, tree, i) == seq(r.count, k requires 0 <= k < r.count => r.first + k)
  {
    hide Finished, Runs, ClusterSize, Linked, FatAt, Roomy, Visited;
    FinishedRuns(img, g, tree);
    var v := VolumeOf(img, g, tree);
    var r := Runs(tree, ClusterSize(g))[i];
    assert IsChain(v, r);
    LinkedVisits(v.fat, g, r.first, r.count, g.clusters);
  }

  /** Different directories and files share no cluster. */
  lemma ChainsDisjoint(img: seq<Octet>, g: Geometry, tree: Dir, i: nat, j: nat, c: nat)
    requires Finished(img, g, tree) && i < |Runs(tree, ClusterSize(g))| && j < |Runs(tree, ClusterSize(g))|
    requires c in ChainOf(img, g, tree, i) && c in ChainOf(img, g, tree, j)
    ensures i == j
  {
    hide Finished, Runs, ClusterSize, ChainOf, AllChains, Packed, Total;
    FinishedRuns(img, g, tree);
    var rs := Runs(tree, ClusterSize(g));
    ChainIsRun(img, g, tree, i);
    ChainIsRun(img, g, tree, j);
    if i < j {
      PackedOrder(rs, ROOT, i, j);
    } else if j < i {
      PackedOrder(rs, ROOT, j, i);
    }
  }

  /** A cluster of a chain is marked as taken. */
  lemma ChainTaken(img: seq<Octet>, g: Geometry, tree: Dir, i: nat, c: nat)
    requires Finished(img, g, tree) && i < |Runs(tree, ClusterSize(g))| && c in ChainOf(img, g, tree, i)
    ensures IsCluster(g, c) && FatAt(VolumeOf(img, g, tree).fat, c) != 0
  {
    hide Finished, Runs, ClusterSize, ChainOf, Packed, Total, FatAt, Linked;
    FinishedRuns(img, g, tree);
    ChainIsRun(img, g, tree, i);
    var v := VolumeOf(img, g, tree);
    var r := Runs(tree, ClusterSize(g))[i];
    assert IsChain(v, r);
    LinkedAt(v.fat, r.first, r.count, c - r.first);
  }

  /** A cluster of the data region is marked as taken exactly when some directory or file has it. */
  lemma NoLostClusters(img: seq<Octet>, g: Geometry, tree: Dir, c: nat)
    requires Finished(img, g, tree) && IsCluster(g, c)
    ensures ClusterSize(g) > 0
    ensures FatAt(VolumeOf(img, g, tree).fat, c) != 0 <==>
            exists i: nat :: i < |Runs(tree, ClusterSize(g))| && c in ChainOf(img, g, tree, i)
  {
    hide Finished, Runs, ClusterSize, ChainOf, AllChains, Packed, Total, FatAt;
    FinishedRuns(img, g, tree);
    var rs := Runs(tree, ClusterSize(g));
    if FatAt(VolumeOf(img, g, tree).fat, c) != 0 {
      FreeBehind(img, g, tree, c);
      var i := PackedCovers(rs, ROOT, c);
      ChainIsRun(img, g, tree, i);
      assert ChainOf(img, g, tree, i)[c - rs[i].first] == c;
    }
    forall i: nat | i < |rs| && c in ChainOf(img, g, tree, i)
      ensures FatAt(VolumeOf(img, g, tree).fat, c) != 0
    {
      ChainTaken(img, g, tree, i, c);
    }
  }
}
