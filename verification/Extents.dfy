/** A file's bytes as the concatenation of the sectors its clusters name. */
module Extents {
  import opened Arithmetic
  import opened Bytes
  import opened Geometry
  import opened FatTable
  import opened Chains
  import opened ChainOps

  ghost predicate AllClusters(g: Geometry, ch: seq<nat>) {
    forall i :: 0 <= i < |ch| ==> g.IsCluster(ch[i])
  }

  /** The sectors of a chain, in file order. */
  function ChainSectors(g: Geometry, ch: seq<nat>): (secs: seq<nat>)
    requires g.sectorsPerCluster >= 1 && forall i :: 0 <= i < |ch| ==> ch[i] >= 2
    ensures |secs| == |ch| * g.sectorsPerCluster
  {
    var spc := g.sectorsPerCluster;
    seq(|ch| * spc, k requires 0 <= k < |ch| * spc =>
      DivBound(k, spc, |ch|); g.FirstSector(ch[k / spc]) + k % spc)
  }

  ghost predicate OnDevice(secs: seq<nat>, len: nat) {
    forall k :: 0 <= k < |secs| ==> SECTOR * (secs[k] + 1) <= len
  }

  ghost predicate Injective(secs: seq<nat>) {
    forall i, j :: 0 <= i < |secs| && 0 <= j < |secs| && secs[i] == secs[j] ==> i == j
  }

  /** The bytes held in a list of sectors. */
  function Content(img: seq<byte>, secs: seq<nat>): (d: seq<byte>)
    requires OnDevice(secs, |img|)
    ensures |d| == SECTOR * |secs|
  {
    seq(SECTOR * |secs|, p requires 0 <= p < SECTOR * |secs| => img[SECTOR * secs[p / SECTOR] + p % SECTOR])
  }

  /** Patching one sector of a file patches its contents at the matching offset. */
  lemma ContentPatched(img: seq<byte>, secs: seq<nat>, k: nat, off: nat, d: seq<byte>)
    requires OnDevice(secs, |img|) && Injective(secs) && k < |secs| && off + |d| <= SECTOR
    ensures Content(Splice(img, SECTOR * secs[k] + off, d), secs)
      == Splice(Content(img, secs), SECTOR * k + off, d)
  {
    var img' := Splice(img, SECTOR * secs[k] + off, d);
    forall p | 0 <= p < SECTOR * |secs|
      ensures Content(img', secs)[p] == Splice(Content(img, secs), SECTOR * k + off, d)[p]
    {
      var j, o := p / SECTOR, p % SECTOR;
      assert p == SECTOR * j + o;
      if secs[j] == secs[k] { assert j == k; }
    }
  }

  /** A read inside one sector is a slice of the contents. */
  lemma ContentSlice(img: seq<byte>, secs: seq<nat>, k: nat, off: nat, n: nat)
    requires OnDevice(secs, |img|) && k < |secs| && off + n <= SECTOR
    ensures Sector(img, secs[k])[off..off + n] == Content(img, secs)[SECTOR * k + off..SECTOR * k + off + n]
  {
    var c := Content(img, secs);
    forall p | SECTOR * k + off <= p < SECTOR * k + off + n
      ensures c[p] == Sector(img, secs[k])[p - SECTOR * k]
    {
      WithinSector(k, p - SECTOR * k);
    }
  }

  lemma WithinSector(k: nat, o: nat)
    requires o < SECTOR
    ensures (SECTOR * k + o) / SECTOR == k && (SECTOR * k + o) % SECTOR == o
  {
  }

  lemma ValidSpc(g: Geometry, len: nat)
    requires g.Valid(len)
    ensures g.sectorsPerCluster >= 1
  {
  }

  lemma ChainOnDevice(g: Geometry, len: nat, ch: seq<nat>)
    requires g.Valid(len) && AllClusters(g, ch)
    ensures OnDevice(ChainSectors(g, ch), len)
    ensures forall k :: 0 <= k < |ch| * g.sectorsPerCluster ==> ChainSectors(g, ch)[k] >= g.firstData
  {
    ValidSpc(g, len);
    hide Geometry.Valid, Geometry.FirstSector;
    var secs := ChainSectors(g, ch);
    forall k | 0 <= k < |secs|
      ensures SECTOR * (secs[k] + 1) <= len && secs[k] >= g.firstData
    {
      DivBound(k, g.sectorsPerCluster, |ch|);
      ClusterBounds(g, len, ch[k / g.sectorsPerCluster]);
    }
  }

  lemma ChainInjective(g: Geometry, ch: seq<nat>)
    requires g.sectorsPerCluster >= 1 && AllClusters(g, ch)
    requires forall i, j :: 0 <= i < |ch| && 0 <= j < |ch| && ch[i] == ch[j] ==> i == j
    ensures Injective(ChainSectors(g, ch))
  {
    hide ChainSectors;
    var secs := ChainSectors(g, ch);
    forall k, l | 0 <= k < |secs| && 0 <= l < |secs| && secs[k] == secs[l]
      ensures k == l
    {
      var i, j := SameSector(g, ch, ch, k, l);
    }
  }

  /** Where the `k`-th sector of a chain lies. */
  lemma SectorPlace(g: Geometry, ch: seq<nat>, k: nat) returns (i: nat, r: nat)
    requires g.sectorsPerCluster >= 1 && AllClusters(g, ch) && k < |ch| * g.sectorsPerCluster
    ensures i == k / g.sectorsPerCluster && r == k % g.sectorsPerCluster
    ensures i < |ch| && r < g.sectorsPerCluster && k == i * g.sectorsPerCluster + r
    ensures ChainSectors(g, ch)[k] == g.FirstSector(ch[i]) + r
  {
    hide Geometry.FirstSector;
    DivBound(k, g.sectorsPerCluster, |ch|);
    i, r := k / g.sectorsPerCluster, k % g.sectorsPerCluster;
  }

  /** Two chains name the same sector only through the same cluster. */
  lemma SameSector(g: Geometry, ch: seq<nat>, ch': seq<nat>, k: nat, l: nat) returns (i: nat, j: nat)
    requires g.sectorsPerCluster >= 1 && AllClusters(g, ch) && AllClusters(g, ch')
    requires k < |ch| * g.sectorsPerCluster && l < |ch'| * g.sectorsPerCluster
    requires ChainSectors(g, ch)[k] == ChainSectors(g, ch')[l]
    ensures i < |ch| && j < |ch'| && ch[i] == ch'[j] && (i == j ==> k == l)
  {
    hide ChainSectors;
    var r, s;
    i, r := SectorPlace(g, ch, k);
    j, s := SectorPlace(g, ch', l);
    ClustersDisjoint(g, ch[i], ch'[j], r, s);
  }

  // ---- Cluster boundaries -----------------------------------------------------------------

  /** fat_read's test with `tmpoff` is true exactly when the next sector leaves the cluster. */
  lemma BoundaryTest(g: Geometry, c: nat, r: nat)
    requires c >= 2 && r < g.sectorsPerCluster
    ensures var spc := g.sectorsPerCluster;
      (g.FirstSector(c) + r + 1) % spc == g.firstData % spc <==> r + 1 == spc
  {
    var spc, f := g.sectorsPerCluster, g.firstData;
    var q, o := f / spc, f % spc;
    var n := c - 2 + q;
    assert (c - 2) * spc + q * spc == n * spc;
    assert g.FirstSector(c) == n * spc + o;
    if o + r + 1 < spc {
      DivExact(n, o + r + 1, spc);
    } else if o + r + 1 < 2 * spc {
      MulSucc(n, spc);
      DivExact(n + 1, o + r + 1 - spc, spc);
    }
  }
}
