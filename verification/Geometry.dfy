/** Volume geometry (bpb.h) and cluster addressing (fat_core.h). */
module Geometry {
  import opened Arithmetic
  import opened Bytes

  datatype Kind = Fat12 | Fat16 | Fat32 {
    // Table entries are numbers below this.
    function Cap(): nat {
      match this
      case Fat12 => 0x1000
      case Fat16 => 0x1_0000
      case Fat32 => 0x1000_0000
    }

    /** Bytes touched by one entry. */
    function Width(): nat { if this == Fat32 then 4 else 2 }
  }

  /** The fields fat_vol_init takes from the boot record and never changes. */
  datatype Geometry = Geometry(
    kind: Kind,
    sectorsPerCluster: nat,
    reserved: nat,
    numFats: nat,
    fatSize: nat,
    firstData: nat,
    clusterCount: nat)
  {
    // fat_eoc
    function Eoc(): (e: nat) {
      match kind
      case Fat12 => 0x0FF8
      case Fat16 => 0xFFF8
      case Fat32 => 0x0FFF_FFF8
    }

    /** Entries 0 and 1 are reserved; data clusters are 2 .. clusterCount + 1. */
    function Entries(): nat { clusterCount + 2 }

    function FatEnd(): nat { reserved + numFats * fatSize }

    function DataEnd(): nat { firstData + clusterCount * sectorsPerCluster }

    /** Byte offset and width of a table entry inside one copy of the table. */
    function EntryOff(c: nat): nat {
      match kind
      case Fat12 => c + c / 2
      case Fat16 => 2 * c
      case Fat32 => 4 * c
    }

    // fat_first_sector_of_cluster
    function FirstSector(c: nat): nat
      requires c >= 2
    {
      (c - 2) * sectorsPerCluster + firstData
    }

    predicate IsCluster(c: nat) { 2 <= c < Entries() }

    /** What the boot record and the device must satisfy. */
    predicate Valid(len: nat) {
      && sectorsPerCluster >= 1 && numFats >= 1
      && FatEnd() <= firstData
      && SECTOR * DataEnd() <= len <= U32
      && EntryOff(clusterCount + 1) + kind.Width() <= SECTOR * fatSize
      && (match kind
          case Fat12 => clusterCount < 4085
          case Fat16 => 4085 <= clusterCount < 65525
          case Fat32 => 65525 <= clusterCount <= 0x0FFF_FFF5)
    }

    /** Byte address where copy `k` of the table starts. */
    function FatBase(k: nat): nat { SECTOR * (reserved + k * fatSize) }

    function EntryAddr(k: nat, c: nat): nat { FatBase(k) + EntryOff(c) }

    predicate InFat(a: nat) { SECTOR * reserved <= a < SECTOR * FatEnd() }
  }

  /** Copies of the table lie one after the other inside the FAT area. */
  lemma CopyBounds(g: Geometry, k: nat)
    requires k < g.numFats
    ensures g.FatBase(0) == SECTOR * g.reserved
    ensures g.FatBase(0) <= g.FatBase(k) && g.FatBase(k) + SECTOR * g.fatSize <= SECTOR * g.FatEnd()
    ensures k > 0 ==> g.FatBase(1) <= g.FatBase(k) && g.FatBase(1) == g.FatBase(0) + SECTOR * g.fatSize
  {
    MulMono(k + 1, g.numFats, g.fatSize);
    MulSucc(k, g.fatSize);
    if k > 0 { MulMono(1, k, g.fatSize); }
  }

  lemma CopiesDisjoint(g: Geometry, j: nat, k: nat)
    requires j < k < g.numFats
    ensures g.FatBase(j) + SECTOR * g.fatSize <= g.FatBase(k)
  {
    MulMono(j + 1, k, g.fatSize);
    MulSucc(j, g.fatSize);
  }

  lemma EntryInCopy(g: Geometry, len: nat, c: nat)
    requires g.Valid(len) && c < g.Entries()
    ensures g.EntryOff(c) + g.kind.Width() <= SECTOR * g.fatSize
    ensures g.Entries() <= g.Eoc() < g.kind.Cap() && g.numFats >= 1
    ensures SECTOR * g.FatEnd() <= len
  {
  }

  lemma ClusterSpan(g: Geometry, c: nat)
    requires g.IsCluster(c)
    ensures g.firstData <= g.FirstSector(c) && g.FirstSector(c) + g.sectorsPerCluster <= g.DataEnd()
  {
    MulSucc(c - 2, g.sectorsPerCluster);
    MulMono(c - 1, g.clusterCount, g.sectorsPerCluster);
  }

  /** A data cluster's sectors lie in the data area, hence on the device and off the tables. */
  lemma ClusterBounds(g: Geometry, len: nat, c: nat)
    requires g.Valid(len) && g.IsCluster(c)
    ensures g.FatEnd() <= g.firstData <= g.FirstSector(c)
    ensures SECTOR * (g.FirstSector(c) + g.sectorsPerCluster) <= len
  {
    hide Geometry.FirstSector, Geometry.DataEnd, Geometry.FatEnd, Geometry.EntryOff;
    ClusterSpan(g, c);
  }

  /** Different clusters share no sector. */
  lemma ClustersDisjoint(g: Geometry, c: nat, d: nat, i: nat, j: nat)
    requires c >= 2 && d >= 2 && i < g.sectorsPerCluster && j < g.sectorsPerCluster
    ensures g.FirstSector(c) + i == g.FirstSector(d) + j ==> c == d && i == j
  {
    var spc := g.sectorsPerCluster;
    if c < d {
      MulMono(c - 1, d - 2, spc);
      MulSucc(c - 2, spc);
    } else if d < c {
      MulMono(d - 1, c - 2, spc);
      MulSucc(d - 2, spc);
    }
  }
}
