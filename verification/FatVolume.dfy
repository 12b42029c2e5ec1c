/** Reading and writing cluster chains of a FAT32 volume. */
module FatVolume {
  import opened FatLayout

  const U32: nat := 0x1_0000_0000

  /** _le32. */
  function Le32(v: nat): (s: seq<Octet>)
    requires v < U32
    ensures |s| == 4
  {
    [v % 256, v / 256 % 256, v / 0x1_0000 % 256, v / 0x100_0000]
  }

  function GetLe32(b: seq<Octet>, o: nat): nat
    requires o + 4 <= |b|
  {
    (b[o] as int) + (b[o + 1] as int) * 256 + (b[o + 2] as int) * 0x1_0000 + (b[o + 3] as int) * 0x100_0000
  }

  lemma Le32Back(v: nat, b: seq<Octet>, o: nat)
    requires v < U32 && o + 4 <= |b| && b[o..o + 4] == Le32(v)
    ensures GetLe32(b, o) == v
  {
    assert b[o] == b[o..o + 4][0] && b[o + 1] == b[o..o + 4][1] && b[o + 2] == b[o..o + 4][2] &&
           b[o + 3] == b[o..o + 4][3];
    assert v / 256 == v / 0x1_0000 * 256 + v / 256 % 256;
    assert v / 0x1_0000 == v / 0x100_0000 * 256 + v / 0x1_0000 % 256;
  }

  /** s[o:o + len(d)] = d. */
  function Splice(s: seq<Octet>, o: nat, d: seq<Octet>): (r: seq<Octet>)
    requires o + |d| <= |s|
    ensures |r| == |s| && r[o..o + |d|] == d && r[..o] == s[..o] && r[o + |d|..] == s[o + |d|..]
  {
    s[..o] + d + s[o + |d|..]
  }

  /** A slice beside the spliced part stays. */
  lemma SpliceApart(s: seq<Octet>, o: nat, d: seq<Octet>, lo: nat, hi: nat)
    requires o + |d| <= |s| && lo <= hi <= |s| && (hi <= o || o + |d| <= lo)
    ensures Splice(s, o, d)[lo..hi] == s[lo..hi]
  {
    var r := Splice(s, o, d);
    if hi <= o {
      assert r[lo..hi] == r[..o][lo..hi] && s[lo..hi] == s[..o][lo..hi];
    } else {
      var m := o + |d|;
      assert r[lo..hi] == r[m..][lo - m..hi - m] && s[lo..hi] == s[m..][lo - m..hi - m];
    }
  }

  // The FAT.

  function FatAt(fat: seq<Octet>, c: nat): nat
    requires 4 * (c + 1) <= |fat|
  {
    GetLe32(fat, 4 * c) % MASK
  }

  /** set_fat32_entry. */
  function SetFat(fat: seq<Octet>, c: nat, v: nat): (r: seq<Octet>)
    requires 4 * (c + 1) <= |fat|
    ensures |r| == |fat|
  {
    Splice(fat, 4 * c, Le32(v % MASK))
  }

  lemma SetFatAt(fat: seq<Octet>, c: nat, v: nat, d: nat)
    requires 4 * (c + 1) <= |fat| && 4 * (d + 1) <= |fat|
    ensures FatAt(SetFat(fat, c, v), d) == if d == c then v % MASK else FatAt(fat, d)
  {
    hide GetLe32, Le32;
    var r := SetFat(fat, c, v);
    if d == c {
      Le32Back(v % MASK, r, 4 * c);
    } else {
      SpliceApart(fat, 4 * c, Le32(v % MASK), 4 * d, 4 * d + 4);
      SameLe32(r, fat, 4 * d);
    }
  }

  lemma SameLe32(a: seq<Octet>, b: seq<Octet>, o: nat)
    requires |a| == |b| && o + 4 <= |a| && a[o..o + 4] == b[o..o + 4]
    ensures GetLe32(a, o) == GetLe32(b, o)
  {
    assert a[o] == a[o..o + 4][0] && a[o + 1] == a[o..o + 4][1] && a[o + 2] == a[o..o + 4][2] &&
           a[o + 3] == a[o..o + 4][3];
    assert b[o] == b[o..o + 4][0] && b[o + 1] == b[o..o + 4][1] && b[o + 2] == b[o..o + 4][2] &&
           b[o + 3] == b[o..o + 4][3];
  }

  /** A link to the next cluster reads back as a link exactly below the end-of-chain marks: the 28-bit
      limit of FAT32. */
  lemma LinkReads(fat: seq<Octet>, c: nat)
    requires 4 * (c + 1) <= |fat|
    ensures FatAt(SetFat(fat, c, c + 1), c) == c + 1 < END_OF_CHAIN <==> c + 1 < END_OF_CHAIN
  {
    SetFatAt(fat, c, c + 1, c);
  }

  /** A chain of `count` consecutive clusters. */
  predicate Linked(fat: seq<Octet>, c: nat, count: nat)
    requires 4 * (c + count) <= |fat|
    decreases count
  {
    && count > 0
    && if count == 1 then FatAt(fat, c) >= END_OF_CHAIN
       else FatAt(fat, c) == c + 1 < END_OF_CHAIN && Linked(fat, c + 1, count - 1)
  }

  lemma {:induction false} SameLinks(a: seq<Octet>, b: seq<Octet>, c: nat, count: nat)
    requires |a| == |b| && 4 * (c + count) <= |a| && Linked(a, c, count)
    requires forall d: nat :: c <= d < c + count ==> FatAt(a, d) == FatAt(b, d)
    ensures Linked(b, c, count)
    decreases count
  {
    hide FatAt;
    if count > 1 {
      SameLinks(a, b, c + 1, count - 1);
    }
  }

  // Clusters.

  function ClusterSize(g: Geometry): nat { g.spc * SECTOR }

  function DataStart(g: Geometry): nat { (RESERVED + 2 * g.spf) * SECTOR }

  /** cluster_offset. */
  function Offset(g: Geometry, c: nat): nat
    requires c >= 2
  {
    DataStart(g) + (c - 2) * ClusterSize(g)
  }

  /** The image has room for every cluster. */
  predicate Roomy(img: seq<Octet>, g: Geometry) {
    g.spc > 0 && Offset(g, g.clusters + 2) <= |img|
  }

  predicate IsCluster(g: Geometry, c: nat) {
    2 <= c < g.clusters + 2
  }

  lemma OffsetOrder(g: Geometry, c: nat, d: nat)
    requires 2 <= c < d
    ensures Offset(g, c) + ClusterSize(g) <= Offset(g, d)
  {
    hide ClusterSize, DataStart;
    NextMultiple(ClusterSize(g), c - 2, d - 2);
  }

  lemma NextMultiple(s: nat, a: nat, b: nat)
    requires a < b
    ensures a * s + s <= b * s
  {
    Product(s, b, a + 1);
    assert s * (a + 1) == s * a + s;
  }

  function Cluster(img: seq<Octet>, g: Geometry, c: nat): (d: seq<Octet>)
    requires Roomy(img, g) && IsCluster(g, c)
    ensures |d| == ClusterSize(g)
  {
    OffsetOrder(g, c, g.clusters + 2);
    img[Offset(g, c)..Offset(g, c) + ClusterSize(g)]
  }

  /** Only the clusters [lo, hi) may differ. */
  ghost predicate SameOutside(a: seq<Octet>, b: seq<Octet>, g: Geometry, lo: nat, hi: nat)
    requires Roomy(a, g) && Roomy(b, g)
  {
    && |a| == |b|
    && forall c: nat :: IsCluster(g, c) && !(lo <= c < hi) ==> Cluster(a, g, c) == Cluster(b, g, c)
  }

  function PutCluster(img: seq<Octet>, g: Geometry, c: nat, d: seq<Octet>): (r: seq<Octet>)
    requires Roomy(img, g) && IsCluster(g, c) && |d| == ClusterSize(g)
    ensures |r| == |img|
  {
    OffsetOrder(g, c, g.clusters + 2);
    Splice(img, Offset(g, c), d)
  }

  lemma PutClusterIs(img: seq<Octet>, g: Geometry, c: nat, d: seq<Octet>)
    requires Roomy(img, g) && IsCluster(g, c) && |d| == ClusterSize(g)
    ensures var r := PutCluster(img, g, c, d);
            Roomy(r, g) && Cluster(r, g, c) == d && SameOutside(img, r, g, c, c + 1)
  {
    hide Offset, DataStart, ClusterSize, Splice;
    var r := PutCluster(img, g, c, d);
    OffsetOrder(g, c, g.clusters + 2);
    forall e: nat | IsCluster(g, e) && e != c
      ensures Cluster(img, g, e) == Cluster(r, g, e)
    {
      OffsetOrder(g, e, g.clusters + 2);
      if e < c {
        OffsetOrder(g, e, c);
      } else {
        OffsetOrder(g, c, e);
      }
      SpliceApart(img, Offset(g, c), d, Offset(g, e), Offset(g, e) + ClusterSize(g));
    }
  }

  /** Writing before the data region changes no cluster. */
  lemma HeaderSplice(img: seq<Octet>, g: Geometry, o: nat, d: seq<Octet>)
    requires Roomy(img, g) && o + |d| <= DataStart(g) <= |img|
    ensures Roomy(Splice(img, o, d), g) && SameOutside(img, Splice(img, o, d), g, 0, 0)
  {
    hide Offset, DataStart, ClusterSize, Splice;
    var r := Splice(img, o, d);
    forall c: nat | IsCluster(g, c)
      ensures Cluster(img, g, c) == Cluster(r, g, c)
    {
      OffsetStart(g, c);
      OffsetOrder(g, c, g.clusters + 2);
      SpliceApart(img, o, d, Offset(g, c), Offset(g, c) + ClusterSize(g));
    }
  }

  lemma OffsetStart(g: Geometry, c: nat)
    requires c >= 2
    ensures DataStart(g) <= Offset(g, c)
  {
  }

  lemma SameTrans(a: seq<Octet>, b: seq<Octet>, c: seq<Octet>, g: Geometry, lo: nat, mid: nat, hi: nat)
    requires Roomy(a, g) && Roomy(b, g) && Roomy(c, g) && lo <= mid <= hi
    requires SameOutside(a, b, g, lo, mid) && SameOutside(b, c, g, mid, hi)
    ensures SameOutside(a, c, g, lo, hi)
  {
    hide Cluster, Roomy;
  }

  // Data in chains.

  function Take(d: seq<Octet>, n: nat): seq<Octet> { if |d| <= n then d else d[..n] }

  function Drop(d: seq<Octet>, n: nat): seq<Octet> { if |d| <= n then [] else d[n..] }

  function Zeros(n: nat): (z: seq<Octet>)
    ensures |z| == n && forall i :: 0 <= i < n ==> z[i] == 0
  {
    if n == 0 then [] else Zeros(n - 1) + [0]
  }

  function Pad(d: seq<Octet>, n: nat): (r: seq<Octet>)
    requires |d| <= n
    ensures |r| == n
  {
    d + Zeros(n - |d|)
  }

  /** The clusters from c on hold d, the rest of the last one zero. */
  predicate Holds(img: seq<Octet>, g: Geometry, c: nat, count: nat, d: seq<Octet>)
    requires Roomy(img, g) && 2 <= c && c + count <= g.clusters + 2
    decreases count
  {
    if count == 0 then d == []
    else
      Cluster(img, g, c) == Pad(Take(d, ClusterSize(g)), ClusterSize(g)) &&
      Holds(img, g, c + 1, count - 1, Drop(d, ClusterSize(g)))
  }

  lemma {:induction false} SameHolds(a: seq<Octet>, b: seq<Octet>, g: Geometry, c: nat, count: nat, d: seq<Octet>,
                                     lo: nat, hi: nat)
    requires Roomy(a, g) && Roomy(b, g) && SameOutside(a, b, g, lo, hi) && 2 <= c && c + count <= g.clusters + 2
    requires Holds(a, g, c, count, d) && (c + count <= lo || hi <= c)
    ensures Holds(b, g, c, count, d)
    decreases count
  {
    hide Cluster, Roomy, ClusterSize;
    if count > 0 {
      assert Cluster(a, g, c) == Cluster(b, g, c);
      SameHolds(a, b, g, c + 1, count - 1, Drop(d, ClusterSize(g)), lo, hi);
    }
  }

  /** Following the FAT from cluster c. */
  function ReadChain(fat: seq<Octet>, img: seq<Octet>, g: Geometry, c: nat, fuel: nat): seq<Octet>
    requires Roomy(img, g) && 4 * (g.clusters + 2) <= |fat|
    decreases fuel
  {
    if fuel == 0 || !IsCluster(g, c) then []
    else
      var next := FatAt(fat, c);
      Cluster(img, g, c) + if next >= END_OF_CHAIN then [] else ReadChain(fat, img, g, next, fuel - 1)
  }

  lemma HoldsFirst(img: seq<Octet>, g: Geometry, c: nat, count: nat, d: seq<Octet>)
    requires Roomy(img, g) && 2 <= c && c + count <= g.clusters + 2 && count > 0 && Holds(img, g, c, count, d)
    ensures Take(d, ClusterSize(g)) <= Cluster(img, g, c) && |Cluster(img, g, c)| == ClusterSize(g)
    ensures Holds(img, g, c + 1, count - 1, Drop(d, ClusterSize(g)))
    ensures count == 1 ==> Drop(d, ClusterSize(g)) == []
  {
    hide Cluster, Roomy, ClusterSize;
  }

  lemma LinkedFirst(fat: seq<Octet>, c: nat, count: nat)
    requires 4 * (c + count) <= |fat| && Linked(fat, c, count)
    ensures count > 0
    ensures if count == 1 then FatAt(fat, c) >= END_OF_CHAIN
            else FatAt(fat, c) == c + 1 < END_OF_CHAIN && Linked(fat, c + 1, count - 1)
  {
    hide FatAt;
  }

  /** What is read behind a first piece follows it. */
  lemma PrefixJoin(d: seq<Octet>, n: nat, first: seq<Octet>, rest: seq<Octet>)
    requires Take(d, n) <= first && |first| == n && Drop(d, n) <= rest
    ensures d <= first + rest
  {
    if |d| > n {
      assert d == d[..n] + d[n..];
    }
  }

  /** A linked chain reads back its data. */
  lemma {:induction false} ChainReads(fat: seq<Octet>, img: seq<Octet>, g: Geometry, c: nat, count: nat,
                                      d: seq<Octet>, fuel: nat)
    requires Roomy(img, g) && 4 * (g.clusters + 2) <= |fat| && 2 <= c && c + count <= g.clusters + 2 && count <= fuel
    requires Linked(fat, c, count) && Holds(img, g, c, count, d)
    ensures d <= ReadChain(fat, img, g, c, fuel)
    decreases count
  {
    hide Cluster, Roomy, ClusterSize, FatAt, Linked, Holds, Take, Drop;
    var cs := ClusterSize(g);
    LinkedFirst(fat, c, count);
    HoldsFirst(img, g, c, count, d);
    if count > 1 {
      ChainReads(fat, img, g, c + 1, count - 1, Drop(d, cs), fuel - 1);
      PrefixJoin(d, cs, Cluster(img, g, c), ReadChain(fat, img, g, c + 1, fuel - 1));
    } else {
      PrefixJoin(d, cs, Cluster(img, g, c), []);
    }
  }

  /** The clusters a file needs; an empty file has one. */
  function Clusters(n: nat, cs: nat): nat
    requires cs > 0
  {
    var k := (n + cs - 1) / cs;
    if k < 1 then 1 else k
  }

  /** The smallest number of clusters, but at least one, that holds n bytes. */
  lemma ClustersMeans(n: nat, cs: nat)
    requires cs > 0
    ensures var k := Clusters(n, cs); k >= 1 && n <= k * cs && (k == 1 || (k - 1) * cs < n)
  {
    var k := (n + cs - 1) / cs;
    assert n + cs - 1 == cs * k + (n + cs - 1) % cs;
    assert cs * (k - 1) == cs * k - cs;
  }

  lemma ClustersOne(n: nat, cs: nat)
    requires cs > 0 && n <= cs
    ensures Clusters(n, cs) == 1
  {
    if n > 0 {
      DivIs(n + cs - 1, cs, 1);
    } else {
      DivIs(cs - 1, cs, 0);
    }
  }

  lemma ClustersMore(n: nat, cs: nat)
    requires cs > 0 && n > cs
    ensures Clusters(n, cs) == 1 + Clusters(n - cs, cs)
  {
    var k := (n - 1) / cs;
    assert n - 1 == cs * k + (n - 1) % cs;
    DivIs(n + cs - 1, cs, k + 1);
  }

  lemma DivIs(x: nat, s: nat, q: int)
    requires s > 0 && s * q <= x < s * q + s
    ensures x / s == q
  {
    var d := x / s;
    assert x == s * d + x % s;
    if d < q {
      Product(s, q, d + 1);
    } else if d > q {
      Grows(s, d, q + 1);
    }
  }

  lemma Grows(s: nat, p: int, q: int)
    requires p >= q
    ensures s * p >= s * q
  {
  }

  // Building chains cluster by cluster.

  lemma {:induction false} LinkedRun(fat: seq<Octet>, c: nat, count: nat)
    requires count > 0 && 4 * (c + count) <= |fat| && c + count <= END_OF_CHAIN
    requires forall d: nat :: c <= d < c + count - 1 ==> FatAt(fat, d) == d + 1
    requires FatAt(fat, c + count - 1) >= END_OF_CHAIN
    ensures Linked(fat, c, count)
    decreases count
  {
    hide FatAt;
    if count > 1 {
      LinkedRun(fat, c + 1, count - 1);
    }
  }

  lemma {:induction false} LinkedAt(fat: seq<Octet>, c: nat, count: nat, j: nat)
    requires 4 * (c + count) <= |fat| && Linked(fat, c, count) && j < count
    ensures if j + 1 < count then FatAt(fat, c + j) == c + j + 1 < END_OF_CHAIN else FatAt(fat, c + j) >= END_OF_CHAIN
    decreases count
  {
    hide FatAt;
    if j > 0 {
      LinkedAt(fat, c + 1, count - 1, j - 1);
    }
  }

  /** d without its first k pieces. */
  function DropN(d: seq<Octet>, k: nat, cs: nat): seq<Octet>
    decreases k
  {
    if k == 0 then d else DropN(Drop(d, cs), k - 1, cs)
  }

  lemma {:induction false} DropNext(d: seq<Octet>, k: nat, cs: nat)
    ensures DropN(d, k + 1, cs) == Drop(DropN(d, k, cs), cs)
    decreases k
  {
    if k > 0 {
      DropNext(Drop(d, cs), k - 1, cs);
    }
  }

  lemma {:induction false} DropAll(d: seq<Octet>, cs: nat)
    requires cs > 0
    ensures DropN(d, Clusters(|d|, cs), cs) == []
    decreases |d|
  {
    if |d| <= cs {
      ClustersOne(|d|, cs);
      assert DropN(d, 1, cs) == DropN(Drop(d, cs), 0, cs);
    } else {
      ClustersMore(|d|, cs);
      DropAll(Drop(d, cs), cs);
    }
  }

  /** The first k clusters from c on hold the first k pieces of d. */
  predicate Prefix(img: seq<Octet>, g: Geometry, c: nat, k: nat, d: seq<Octet>)
    requires Roomy(img, g) && 2 <= c && c + k <= g.clusters + 2
    decreases k
  {
    k == 0 || (Cluster(img, g, c) == Pad(Take(d, ClusterSize(g)), ClusterSize(g)) &&
               Prefix(img, g, c + 1, k - 1, Drop(d, ClusterSize(g))))
  }

  lemma {:induction false} PrefixMore(a: seq<Octet>, b: seq<Octet>, g: Geometry, c: nat, k: nat, d: seq<Octet>)
    requires Roomy(a, g) && Roomy(b, g) && 2 <= c && c + k + 1 <= g.clusters + 2 && Prefix(a, g, c, k, d)
    requires forall e: nat :: IsCluster(g, e) && e != c + k ==> Cluster(a, g, e) == Cluster(b, g, e)
    requires Cluster(b, g, c + k) == Pad(Take(DropN(d, k, ClusterSize(g)), ClusterSize(g)), ClusterSize(g))
    ensures Prefix(b, g, c, k + 1, d)
    decreases k
  {
    hide Cluster, Roomy, ClusterSize;
    if k > 0 {
      assert Cluster(a, g, c) == Cluster(b, g, c);
      PrefixMore(a, b, g, c + 1, k - 1, Drop(d, ClusterSize(g)));
    } else {
      assert Prefix(b, g, c + 1, 0, Drop(d, ClusterSize(g)));
    }
  }

  lemma {:induction false} PrefixHolds(img: seq<Octet>, g: Geometry, c: nat, k: nat, d: seq<Octet>)
    requires Roomy(img, g) && 2 <= c && c + k <= g.clusters + 2
    requires Prefix(img, g, c, k, d) && DropN(d, k, ClusterSize(g)) == []
    ensures Holds(img, g, c, k, d)
    decreases k
  {
    hide Cluster, Roomy, ClusterSize;
    if k > 0 {
      PrefixHolds(img, g, c + 1, k - 1, Drop(d, ClusterSize(g)));
    }
  }

  lemma TwoSplices(s: seq<Octet>, o: nat, a: seq<Octet>, b: seq<Octet>)
    requires o + |a| + |b| <= |s|
    ensures Splice(Splice(s, o, a), o + |a|, b) == Splice(s, o, a + b)
  {
  }
}
