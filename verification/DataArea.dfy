/** The data area: clusters as runs of sectors, and the sector list of a chain. */
module DataArea {
  import opened Machine
  import opened Geometry
  import opened Chains
  import opened FileView

  /** c taken p times. Kept as a recursion so that proofs stay linear. */
  function Times(c: nat, p: nat): nat { if p == 0 then 0 else Times(c, p - 1) + c }

  lemma {:induction false} TimesIsProduct(c: nat, p: nat)
    ensures Times(c, p) == c * p
  {
    if p > 0 {
      TimesIsProduct(c, p - 1);
      assert c * p == c * (p - 1) + c;
    }
  }

  lemma {:induction false} TimesMonotone(c: nat, p: nat, q: nat)
    requires p <= q
    ensures Times(c, p) <= Times(c, q)
    decreases q
  {
    if p < q { TimesMonotone(c, p, q - 1); }
  }

  lemma {:induction false} TimesStrict(c: nat, p: nat, q: nat)
    requires p < q
    ensures Times(c, p) + c <= Times(c, q)
  {
    TimesMonotone(c, p + 1, q);
  }

  /** First sector of cluster c. */
  function ClusterSect(g: Geo, c: nat): nat
    requires c >= 2
  {
    g.database + Times(g.csize, c - 2)
  }

  /** clst2sect: 0 for a number that is not a cluster. */
  function Clst2Sect(g: Geo, clst: nat): nat {
    if clst < 2 || clst - 2 >= g.nFatent - 2 then 0 else g.database + g.csize * (clst - 2)
  }

  /** The mask arithmetic on the cluster size is only looked at where Halving is mentioned. */
  ghost predicate Halving(k: int) { true }

  /** The data area follows the FATs and lies inside a disk of `size` bytes. */
  ghost predicate DataOk(g: Geo, size: nat) {
    && 1 <= g.csize <= 128 && (forall k {:trigger Halving(k)} :: Halving(k) ==> PowerOfTwo(g.csize))
    && 2 < g.nFatent && 0 < g.fatbase < FatEnd(g) <= g.database
    && g.database + Times(g.csize, g.nFatent - 2) <= 0x1_0000_0000
    && 512 * (g.database + Times(g.csize, g.nFatent - 2)) <= size
  }

  /** The root directory area of a FAT12 or FAT16 volume. */
  ghost predicate RootOk(g: Geo) {
    g.nRootdir > 0 && g.nRootdir % 16 == 0 && FatEnd(g) <= g.dirbase && g.dirbase + g.nRootdir / 16 <= g.database
  }

  lemma Clst2SectIsFirst(g: Geo, c: nat)
    requires 2 <= c < g.nFatent
    ensures Clst2Sect(g, c) == ClusterSect(g, c) == g.database + (c - 2) * g.csize
  {
    TimesIsProduct(g.csize, c - 2);
  }

  /** A cluster's sectors lie inside the data area. */
  lemma ClusterInside(g: Geo, c: nat)
    requires 2 <= c < g.nFatent
    ensures g.database <= ClusterSect(g, c)
    ensures ClusterSect(g, c) + g.csize <= g.database + Times(g.csize, g.nFatent - 2)
  {
    TimesStrict(g.csize, c - 2, g.nFatent - 2);
  }

  /** The sector behind the data area. */
  function VolumeEnd(g: Geo): nat { g.database + Times(g.csize, if g.nFatent >= 2 then g.nFatent - 2 else 0) }

  lemma InsideVolume(g: Geo, c: nat, s: nat)
    requires 2 <= c < g.nFatent && InCluster(g, c, s)
    ensures g.database <= s < VolumeEnd(g)
  {
    ClusterInside(g, c);
  }

  /** Different clusters have different sectors. */
  lemma ClustersApart(g: Geo, c: nat, d: nat)
    requires 2 <= c < d
    ensures ClusterSect(g, c) + g.csize <= ClusterSect(g, d)
  {
    TimesStrict(g.csize, c - 2, d - 2);
  }

  /** Sector s belongs to cluster c. */
  predicate InCluster(g: Geo, c: nat, s: nat) {
    c >= 2 && ClusterSect(g, c) <= s < ClusterSect(g, c) + g.csize
  }

  lemma OneCluster(g: Geo, c: nat, d: nat, s: nat)
    requires InCluster(g, c, s) && InCluster(g, d, s)
    ensures c == d
  {
    if c < d { ClustersApart(g, c, d); } else if d < c { ClustersApart(g, d, c); }
  }

  function Run(s: nat, n: nat): (r: seq<nat>)
    ensures |r| == n && forall i {:trigger r[i]} :: 0 <= i < n ==> r[i] == s + i
  {
    seq(n, i => s + i)
  }

  ghost predicate Clusters(g: Geo, x: Chain) { forall i {:trigger x[i]} :: 0 <= i < |x| ==> 2 <= x[i] < g.nFatent }

  /** The sectors of a chain in file order. */
  ghost function Sectors(g: Geo, x: Chain): (r: seq<nat>)
    requires Clusters(g, x)
    ensures |r| == Times(g.csize, |x|)
  {
    if x == [] then [] else
      var n := |x| - 1;
      Sectors(g, x[..n]) + Run(ClusterSect(g, x[n]), g.csize)
  }

  /** Sector r of the p-th cluster. */
  lemma {:induction false} SectorsAt(g: Geo, x: Chain, p: nat, r: nat)
    requires Clusters(g, x) && p < |x| && r < g.csize
    ensures Times(g.csize, p) + r < |Sectors(g, x)|
    ensures Sectors(g, x)[Times(g.csize, p) + r] == ClusterSect(g, x[p]) + r
    decreases |x|
  {
    var n := |x| - 1;
    if p < n {
      SectorsAt(g, x[..n], p, r);
      assert x[..n][p] == x[p];
    }
  }

  /** Byte i of what a chain holds: its cluster, its sector of the cluster and its place in the sector. */
  lemma ByteOfChain(g: Geo, x: Chain, i: nat, p: nat, r: nat)
    requires Clusters(g, x) && i / 512 < |Sectors(g, x)| && g.csize > 0 && p == i / 512 / g.csize && r == i / 512 % g.csize
    ensures p < |x| && Addr(Sectors(g, x), i) == 512 * (g.database + (x[p] - 2) * g.csize + r) + i % 512
  {
    var k := i / 512;
    var q := QuotientTimes(k, g.csize);
    if p >= |x| { TimesMonotone(g.csize, |x|, p); }
    SectorsAt(g, x, p, r);
    Clst2SectIsFirst(g, x[p]);
  }

  lemma SectorsSnoc(g: Geo, x: Chain, c: nat)
    requires Clusters(g, x) && 2 <= c < g.nFatent
    ensures Clusters(g, x + [c])
    ensures Sectors(g, x + [c]) == Sectors(g, x) + Run(ClusterSect(g, c), g.csize)
  {
    assert (x + [c])[..|x|] == x;
  }

  lemma {:induction false} SectorsPrefix(g: Geo, x: Chain, k: nat)
    requires Clusters(g, x) && k <= |x|
    ensures Clusters(g, x[..k])
    ensures Times(g.csize, k) <= |Sectors(g, x)|
    ensures Sectors(g, x[..k]) == Sectors(g, x)[..Times(g.csize, k)]
    decreases |x|
  {
    if k == |x| {
      assert x[..k] == x;
    } else {
      var n := |x| - 1;
      SectorsPrefix(g, x[..n], k);
      assert x[..n][..k] == x[..k];
    }
  }

  /** Which cluster a sector of the list comes from. */
  lemma {:induction false} SectorsFrom(g: Geo, x: Chain, j: nat) returns (p: nat)
    requires Clusters(g, x) && j < |Sectors(g, x)|
    ensures p < |x| && InCluster(g, x[p], Sectors(g, x)[j])
    ensures Times(g.csize, p) <= j < Times(g.csize, p) + g.csize
    decreases |x|
  {
    var n := |x| - 1;
    if j < |Sectors(g, x[..n])| {
      p := SectorsFrom(g, x[..n], j);
    } else {
      p := n;
    }
  }

  lemma {:induction false} SectorsOk(g: Geo, x: Chain, size: nat)
    requires Clusters(g, x) && DataOk(g, size) && Distinct(x)
    ensures SecsOk(Sectors(g, x), size)
  {
    var secs := Sectors(g, x);
    forall k | 0 <= k < |secs| ensures 512 * secs[k] + 512 <= size {
      var p := SectorsFrom(g, x, k);
      ClusterInside(g, x[p]);
    }
    forall j, k | 0 <= j < k < |secs| ensures secs[j] != secs[k] {
      var p := SectorsFrom(g, x, j);
      var q := SectorsFrom(g, x, k);
      if secs[j] == secs[k] {
        OneCluster(g, x[p], x[q], secs[j]);
        SectorsAt(g, x, p, j - Times(g.csize, p));
        SectorsAt(g, x, q, k - Times(g.csize, q));
      }
    }
  }

  /** The file sector k is in the p-th cluster of the chain. */
  ghost predicate AtCluster(g: Geo, x: Chain, p: nat, k: nat) {
    p < |x| && Times(g.csize, p) <= k < Times(g.csize, p) + g.csize
  }

  /** `k & (csize - 1)`: how far sector k of a file is into its cluster. */
  method SectorPlace(g: Geo, k: nat) returns (csect: nat, ghost p: nat)
    requires 1 <= g.csize && forall k {:trigger Halving(k)} :: Halving(k) ==> PowerOfTwo(g.csize)
    ensures csect < g.csize && k == Times(g.csize, p) + csect
  {
    csect := BitAnd(k, g.csize - 1);
    assert csect == k % g.csize by {
      assert Halving(0);
      MaskIsRemainder(k, g.csize);
    }
    p := QuotientTimes(k, g.csize);
  }

  lemma QuotientTimes(k: nat, c: nat) returns (p: nat)
    requires c > 0
    ensures k == Times(c, p) + k % c && k % c < c && p == k / c
  {
    p := k / c;
    TimesIsProduct(c, p);
  }

  /** The sector after sector k of the p-th cluster is in the same cluster or begins the next one. */
  lemma NextPlace(g: Geo, x: Chain, p: nat, k: nat, q: nat, csect: nat)
    requires AtCluster(g, x, p, k) && csect < g.csize && k + 1 == Times(g.csize, q) + csect
    ensures q == if csect == 0 then p + 1 else p
  {
    if q <= p {
      TimesMonotone(g.csize, q, p);
      if q < p { TimesStrict(g.csize, q, p); }
    } else {
      TimesMonotone(g.csize, p + 1, q);
      if p + 1 < q { TimesStrict(g.csize, p + 1, q); }
    }
  }

  /** The rest of a cluster is a run of consecutive sectors of the file and of the medium. */
  lemma ClusterRun(g: Geo, x: Chain, p: nat, k: nat, cc: nat)
    requires Clusters(g, x) && AtCluster(g, x, p, k) && k - Times(g.csize, p) + cc <= g.csize
    ensures RunAt(Sectors(g, x), k, ClusterSect(g, x[p]) + (k - Times(g.csize, p)), cc)
  {
    var secs := Sectors(g, x);
    TimesMonotone(g.csize, p + 1, |x|);
    forall j {:trigger secs[j]} | k <= j < k + cc
      ensures secs[j] == ClusterSect(g, x[p]) + (k - Times(g.csize, p)) + (j - k)
    {
      SectorsAt(g, x, p, j - Times(g.csize, p));
    }
  }

  /** A file sector exists, so its cluster does. */
  lemma SectorHasCluster(g: Geo, x: Chain, p: nat, k: nat)
    requires Clusters(g, x) && k < |Sectors(g, x)| && k == Times(g.csize, p)
    ensures p < |x|
  {
    if p >= |x| { TimesMonotone(g.csize, |x|, p); }
  }

  lemma PowerTimes512(c: nat)
    requires PowerOfTwo(c)
    ensures PowerOfTwo(512 * c)
  {
    PowerTimes8(c);
    PowerTimes8(8 * c);
    PowerTimes8(64 * c);
  }

  lemma PowerTimes8(c: nat)
    requires PowerOfTwo(c)
    ensures PowerOfTwo(8 * c)
  {
    Doubled(c);
    Doubled(2 * c);
    Doubled(4 * c);
  }

  lemma Doubled(c: nat)
    requires PowerOfTwo(c)
    ensures PowerOfTwo(2 * c)
  {
    assert 2 * c / 2 == c;
  }

  /** `x & ~(bcs - 1)`: the offset of the cluster that holds byte x, for a cluster size of bcs bytes. */
  method ClusterStart(g: Geo, x: nat, ghost p: nat) returns (b: nat)
    requires 1 <= g.csize && (forall k {:trigger Halving(k)} :: Halving(k) ==> PowerOfTwo(g.csize))
    requires Times(g.csize, p) <= x / 512 < Times(g.csize, p) + g.csize
    ensures b == 512 * Times(g.csize, p)
  {
    var bcs := g.csize * 512;
    assert BitAnd(x, bcs - 1) == x % bcs by {
      assert Halving(0);
      PowerTimes512(g.csize);
      MaskIsRemainder(x, bcs);
    }
    ClusterQuotient(g, x, p);
    b := x - BitAnd(x, bcs - 1);
  }

  /** Division by the cluster size in bytes finds the cluster. */
  lemma ClusterQuotient(g: Geo, x: nat, p: nat)
    requires 1 <= g.csize && Times(g.csize, p) <= x / 512 < Times(g.csize, p) + g.csize
    ensures x / (g.csize * 512) == p && x % (g.csize * 512) == x - 512 * Times(g.csize, p)
  {
    TimesIsProduct(g.csize, p);
    assert p * (g.csize * 512) == 512 * (g.csize * p);
    DivModUnique(x, g.csize * 512, p, x - 512 * Times(g.csize, p));
  }

  /** A byte in the cluster of byte x or in a later one is not before that cluster. */
  lemma NotBefore(g: Geo, x: nat, y: nat, p: nat)
    requires 1 <= g.csize && Times(g.csize, p) <= x / 512 < Times(g.csize, p) + g.csize
    requires y / (g.csize * 512) >= x / (g.csize * 512)
    ensures 512 * Times(g.csize, p) <= y
  {
    var b := g.csize * 512;
    ClusterQuotient(g, x, p);
    TimesIsProduct(g.csize, p);
    MulMonotone(b, p, y / b);
    assert y == b * (y / b) + y % b;
    assert b * p == 512 * (g.csize * p);
  }
}
