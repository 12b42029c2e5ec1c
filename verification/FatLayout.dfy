/** The layout of a FAT32 volume (Microsoft FAT specification): the sizing loop, and the regions and
    records of the image. */
module FatLayout {
  import opened Options

  type Octet = b: int | 0 <= b < 256

  const SECTOR: nat := 512
  const RESERVED: nat := 32
  const MIN_CLUSTERS: nat := 65525
  const ROOT: nat := 2
  const MASK: nat := 0x1000_0000
  const END_OF_CHAIN: nat := 0x0FFF_FFF8

  /** Sectors per cluster, sectors per FAT, number of clusters. */
  datatype Geometry = Geometry(spc: nat, spf: nat, clusters: nat)

  /** The sectors a FAT with this many clusters needs. */
  function FatSectors(clusters: nat): nat {
    ((clusters + 2) * 4 + SECTOR - 1) / SECTOR
  }

  lemma FatSectorsGrow(a: nat, b: nat)
    requires a <= b
    ensures FatSectors(a) <= FatSectors(b)
  {
  }

  /** The clusters left beside two FATs of spf sectors. */
  function ClusterCount(total: nat, spf: nat, spc: nat): nat
    requires spc > 0 && DataSectors(total, spf) > 0
  {
    DataSectors(total, spf) / spc
  }

  function DataSectors(total: nat, spf: nat): int {
    total - RESERVED - 2 * spf
  }

  /** The FAT has room for every cluster, and the data region for all of them. */
  predicate Fits(total: nat, g: Geometry) {
    && g.spc > 0 && FatSectors(g.clusters) <= g.spf
    && RESERVED + 2 * g.spf + g.clusters * g.spc <= total
  }

  lemma ClustersFit(total: nat, spf: nat, spc: nat)
    requires spc > 0 && DataSectors(total, spf) > 0
    ensures RESERVED + 2 * spf + ClusterCount(total, spf, spc) * spc <= total
  {
    var n := DataSectors(total, spf);
    assert n == spc * (n / spc) + n % spc;
  }

  /** A larger FAT leaves no more clusters. */
  lemma ClustersShrink(total: nat, spf: nat, spf': nat, spc: nat)
    requires spc > 0 && spf <= spf' && DataSectors(total, spf') > 0
    ensures ClusterCount(total, spf', spc) <= ClusterCount(total, spf, spc)
  {
    DivGrows(DataSectors(total, spf'), DataSectors(total, spf), spc);
  }

  /** Fewer sectors, fewer clusters. */
  lemma DivGrows(a: nat, b: nat, s: nat)
    requires s > 0 && a <= b
    ensures a / s <= b / s
  {
    var p, q := a / s, b / s;
    assert a == s * p + a % s && b == s * q + b % s;
    if p > q {
      Product(s, p, q + 1);
    }
  }

  lemma Product(s: nat, p: nat, q: nat)
    requires p >= q
    ensures s * p >= s * q
  {
  }

  /** compute_fat32_sectors_per_fat: stops in the first or the second round. */
  method SectorsPerFat(total: nat, spc: nat) returns (r: Option<(nat, nat)>, ghost rounds: nat)
    requires spc > 0
    ensures 1 <= rounds <= 2
    ensures r.None? ==> DataSectors(total, 1) <= 0 || DataSectors(total, FatSectors(ClusterCount(total, 1, spc))) <= 0
    ensures r.Some? ==> Fits(total, Geometry(spc, r.value.0, r.value.1)) && r.value.0 > 0
    ensures r.Some? ==> DataSectors(total, r.value.0) > 0 && r.value.1 == ClusterCount(total, r.value.0, spc)
    ensures r.Some? ==>
              var n := FatSectors(ClusterCount(total, 1, spc));
              r.value.0 == n || r.value.0 == 1 >= n
  {
    hide FatSectors, ClusterCount;
    var spf := 1;
    rounds := 1;
    while true
      invariant spf >= 1 && 1 <= rounds <= 2
      invariant rounds == 1 ==> spf == 1
      invariant rounds == 2 ==> DataSectors(total, 1) > 0 && spf == FatSectors(ClusterCount(total, 1, spc))
      decreases 2 - rounds
    {
      if DataSectors(total, spf) <= 0 {
        return None, rounds;
      }
      var clusters := ClusterCount(total, spf, spc);
      ClustersFit(total, spf, spc);
      ClustersShrink(total, 1, spf, spc);
      FatSectorsGrow(clusters, ClusterCount(total, 1, spc));
      var required := FatSectors(clusters);
      if required <= spf {
        return Some((spf, clusters)), rounds;
      }
      spf := required;
      rounds := rounds + 1;
    }
  }

  /** The smallest image, in sectors, that holds a FAT32 volume. */
  const MIN_SECTORS: nat := 66599

  /** With one sector per cluster there are enough clusters exactly from MIN_SECTORS on. */
  lemma SingleSector(total: nat, spf: nat)
    requires DataSectors(total, 1) > 0 && DataSectors(total, spf) > 0
    requires var n := FatSectors(ClusterCount(total, 1, 1)); spf == n || spf == 1 >= n
    ensures ClusterCount(total, spf, 1) >= MIN_CLUSTERS <==> total >= MIN_SECTORS
  {
  }

  /** The largest image, in sectors, whose links all stay below the end-of-chain marks. */
  const MAX_SECTORS: nat := 272_696_360

  /** The layout in closed form: one sector per cluster, and a FAT for all sectors behind the reserved ones. */
  function Layout(total: nat): Geometry
    requires total >= MIN_SECTORS
  {
    var spf := (total - RESERVED + 127) / 128;
    Geometry(1, spf, total - RESERVED - 2 * spf)
  }

  lemma LayoutIs(total: nat, spf: nat)
    requires total >= MIN_SECTORS && DataSectors(total, spf) > 0
    requires var n := FatSectors(ClusterCount(total, 1, 1)); spf == n || spf == 1 >= n
    ensures Geometry(1, spf, ClusterCount(total, spf, 1)) == Layout(total)
  {
  }

  /** Cluster numbers fit the 28 bits of a FAT entry exactly up to MAX_SECTORS. */
  lemma LayoutLinks(total: nat)
    requires total >= MIN_SECTORS
    ensures Layout(total).clusters + 2 <= END_OF_CHAIN <==> total <= MAX_SECTORS
  {
  }

  lemma LargeEnough(total: nat, n: int)
    requires total >= MIN_SECTORS && n == FatSectors(ClusterCount(total, 1, 1))
    ensures DataSectors(total, 1) > 0 && DataSectors(total, n) > 0
  {
  }

  /** Smaller images have too few clusters of any size. */
  lemma LargerClusters(total: nat, spf: nat, spc: nat)
    requires total < MIN_SECTORS && spc >= 2 && DataSectors(total, spf) > 0
    ensures ClusterCount(total, spf, spc) < MIN_CLUSTERS
  {
    DivLess(DataSectors(total, spf), spc);
  }

  lemma DivLess(a: nat, s: nat)
    requires s >= 2
    ensures 2 * (a / s) <= a
  {
    assert a == s * (a / s) + a % s;
    Product(a / s, s, 2);
  }

  /** choose_fat32_layout: larger clusters are never chosen. */
  method ChooseLayout(total: nat) returns (r: Option<Geometry>)
    ensures r.Some? ==> Fits(total, r.value) && r.value.clusters >= MIN_CLUSTERS && r.value.spf > 0
    ensures r.Some? <==> total >= MIN_SECTORS
    ensures r.Some? ==> r.value == Layout(total)
  {
    hide FatSectors, ClusterCount, Fits, Layout;
    var spc := 1;
    while spc <= 64
      invariant spc in {1, 2, 4, 8, 16, 32, 64, 128}
      invariant spc > 1 ==> total < MIN_SECTORS
      decreases 128 - spc
    {
      ghost var rounds;
      var s;
      s, rounds := SectorsPerFat(total, spc);
      if spc == 1 && total >= MIN_SECTORS {
        LargeEnough(total, FatSectors(ClusterCount(total, 1, 1)));
      }
      if s.None? {
        return None;
      }
      if spc == 1 {
        SingleSector(total, s.value.0);
      } else {
        LargerClusters(total, s.value.0, spc);
      }
      if s.value.1 >= MIN_CLUSTERS {
        LayoutIs(total, s.value.0);
        return Some(Geometry(spc, s.value.0, s.value.1));
      }
      spc := 2 * spc;
    }
    return None;
  }
}
