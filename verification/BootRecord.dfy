/** The boot record (bpb.h) and what fat_vol_init makes of it (fat_core.c:38-66). */
module BootRecord {
  import opened Arithmetic
  import opened Bytes
  import opened Geometry
  import opened Cache
  import opened Layouts

  type Boot = b: seq<byte> | |b| == SECTOR witness seq(SECTOR, _ => 0)

  function BytesPerSector(b: Boot): nat { Get16(b, 11) }

  function SectorsPerCluster(b: Boot): nat { b[13] as int }

  function Reserved(b: Boot): nat { Get16(b, 14) }

  function NumFats(b: Boot): nat { b[16] as int }

  function RootEntries(b: Boot): nat { Get16(b, 17) }

  function TotalSectors(b: Boot): nat {
    if Get16(b, 19) == 0 then Get32(b, 32) else Get16(b, 19)
  }

  // _bpb_fat_size
  function FatSize(b: Boot): nat {
    if Get16(b, 22) == 0 then Get32(b, 36) else Get16(b, 22)
  }

  /** Sectors of all copies of the table. */
  function FatSectors(b: Boot): nat {
    Times(NumFats(b), FatSize(b))
  }

  function Times(x: nat, y: nat): nat {
    x * y
  }

  // _bpb_root_dir_sectors
  function RootDirSectors(b: Boot): nat
    requires BytesPerSector(b) > 0
  {
    (RootEntries(b) * 32 + (BytesPerSector(b) - 1)) / BytesPerSector(b)
  }

  // _bpb_first_data_sector, on 32 bits
  function FirstDataSector(b: Boot): nat
    requires BytesPerSector(b) > 0
  {
    (Reserved(b) + FatSectors(b) + RootDirSectors(b)) % U32
  }

  // _bpb_cluster_count: the subtractions wrap
  function ClusterCount(b: Boot): nat
    requires BytesPerSector(b) > 0 && SectorsPerCluster(b) > 0
  {
    (TotalSectors(b) - Reserved(b) - FatSectors(b) - RootDirSectors(b)) % U32 / SectorsPerCluster(b)
  }

  // fat_type
  function KindOf(clusters: nat): Kind {
    if clusters < 4085 then Fat12 else if clusters < 65525 then Fat16 else Fat32
  }

  /** The record divides by neither zero and its sectors are the device's. */
  predicate Readable(b: Boot) {
    BytesPerSector(b) == SECTOR && SectorsPerCluster(b) > 0
  }

  function GeometryOf(b: Boot): Geometry
    requires Readable(b)
  {
    Geometry(KindOf(ClusterCount(b)), SectorsPerCluster(b), Reserved(b), NumFats(b), FatSize(b), FirstDataSector(b), ClusterCount(b))
  }

  /** Sectors before the data, without wrap-around. */
  function Before(b: Boot): nat
    requires BytesPerSector(b) > 0
  {
    Reserved(b) + FatSectors(b) + RootDirSectors(b)
  }

  /** Reserved sectors, the FAT copies, the root directory and the data clusters lie one after the
      other exactly when the sectors before the data can be counted on 32 bits, and the clusters end
      inside the volume exactly when the first data sector, wrapped or not, is not past its end. */
  lemma RegionsFit(b: Boot)
    requires Readable(b)
    ensures var g := GeometryOf(b);
      g.FatEnd() + RootDirSectors(b) == g.firstData <==> Before(b) < U32
    ensures GeometryOf(b).DataEnd() <= TotalSectors(b) <==> Before(b) % U32 <= TotalSectors(b)
    ensures Before(b) % U32 <= TotalSectors(b) ==> TotalSectors(b) < GeometryOf(b).DataEnd() + SectorsPerCluster(b)
    ensures RootEntries(b) * 32 <= SECTOR * RootDirSectors(b) < RootEntries(b) * 32 + SECTOR
  {
    hide RootDirSectors, TotalSectors, FatSize, Reserved, RootEntries, SectorsPerCluster, NumFats, BytesPerSector, GeometryOf, Before;
    hide Geometry.FatEnd, Geometry.DataEnd;
    RootFits(b);
    Ends(b);
    WrapKeeps(Before(b));
    ClustersFit(TotalSectors(b), Before(b) % U32, SectorsPerCluster(b));
  }

  /** Where the regions end. */
  lemma Ends(b: Boot)
    requires Readable(b)
    ensures var g := GeometryOf(b);
      && g.firstData == Before(b) % U32 && g.FatEnd() + RootDirSectors(b) == Before(b) && SectorsPerCluster(b) < 0x100
      && g.DataEnd() == Before(b) % U32 + (TotalSectors(b) - Before(b) % U32) % U32 / SectorsPerCluster(b) * SectorsPerCluster(b)
      && TotalSectors(b) < U32
  {
    hide RootDirSectors, FatSize, Reserved, RootEntries, NumFats, Get16, Get32;
    WrapTwice(TotalSectors(b), Before(b));
    assert TotalSectors(b) - Before(b) == TotalSectors(b) - Reserved(b) - FatSectors(b) - RootDirSectors(b);
  }

  lemma WrapKeeps(x: nat)
    ensures x % U32 < U32 && (x % U32 == x <==> x < U32)
  {
  }

  lemma WrapTwice(x: nat, y: nat)
    ensures (x - y % U32) % U32 == (x - y) % U32
  {
    assert x - y == x - y % U32 - U32 * (y / U32);
  }

  lemma RootFits(b: Boot)
    requires Readable(b)
    ensures RootEntries(b) * 32 <= SECTOR * RootDirSectors(b) < RootEntries(b) * 32 + SECTOR
  {
    hide RootEntries;
  }

  /** The cluster count on 32 bits: the clusters end inside the volume unless the subtraction wraps. */
  lemma ClustersFit(total: nat, before: nat, spc: nat)
    requires total < U32 && before < U32 && 0 < spc < 0x100
    ensures before + (total - before) % U32 / spc * spc <= total <==> before <= total
    ensures before <= total ==> total < before + (total - before) % U32 / spc * spc + spc
  {
    var left := total - before;
    if before <= total {
      assert left % U32 == left;
      Whole(left, spc);
    } else {
      Wrapped(left);
      Whole(left + U32, spc);
    }
  }

  lemma Whole(x: nat, m: nat)
    requires m > 0
    ensures x - m < x / m * m <= x
  {
    assert x == x / m * m + x % m;
  }

  lemma Wrapped(x: int)
    requires -U32 < x < 0
    ensures x % U32 == x + U32
  {
  }

  /** The volume the other operations assume: a record whose regions fit the volume, the volume the
      device, and whose table holds every cluster. */
  lemma VolumeValid(b: Boot, len: nat)
    requires Readable(b) && NumFats(b) >= 1 && Before(b) <= TotalSectors(b) && SECTOR * TotalSectors(b) <= len <= U32
    requires var g := GeometryOf(b); g.EntryOff(g.clusterCount + 1) + g.kind.Width() <= SECTOR * g.fatSize && g.clusterCount <= 0x0FFF_FFF5
    ensures GeometryOf(b).Valid(len)
  {
    assert TotalSectors(b) < U32;
    WrapKeeps(Before(b));
    RegionsFit(b);
  }

  // ---- The root directory ------------------------------------------------------------------

  /** Where _fat_file_root finds the root directory: a chain from a cluster, or a fixed area. */
  datatype Root = RootChain(cluster: nat) | RootArea(first: nat, count: nat)

  /** The fields of the fixed area have 16 bits. */
  function RootOf(b: Boot): Root
    requires Readable(b)
  {
    if GeometryOf(b).kind == Fat32 then RootChain(Get32(b, 44))
    else RootArea((FirstDataSector(b) - RootDirSectors(b)) % 0x1_0000, RootDirSectors(b) % 0x1_0000)
  }

  /** The fixed root directory is found behind the tables if and only if it starts below sector 2^16;
      otherwise the driver takes sectors before the end of the tables for it. */
  lemma RootFound(b: Boot)
    requires Readable(b) && GeometryOf(b).kind != Fat32
    ensures RootOf(b).RootArea? && RootOf(b).count == RootDirSectors(b)
    ensures RootOf(b).first == GeometryOf(b).FatEnd() <==> GeometryOf(b).FatEnd() < 0x1_0000
    ensures GeometryOf(b).FatEnd() >= 0x1_0000 ==> RootOf(b).first < GeometryOf(b).FatEnd()
  {
    hide FatSize, Reserved, NumFats, Geometry.DataEnd, ClusterCount;
    RootFits(b);
    assert RootEntries(b) < 0x1_0000;
    var end := GeometryOf(b).FatEnd();
    assert Before(b) == end + RootDirSectors(b);
    WrapShort(end, RootDirSectors(b));
  }

  lemma WrapShort(x: nat, r: nat)
    ensures ((x + r) % U32 - r) % 0x1_0000 == x % 0x1_0000
  {
    var q := (x + r) / U32;
    assert (x + r) % U32 == x + r - U32 * q;
    assert U32 * q == 0x1_0000 * (0x1_0000 * q);
  }

  /** 512-byte sectors, one a cluster, one reserved, two tables of 2^15 sectors, 16 root entries and 100
      clusters: the root directory at sector 65537 is looked for at sector 1. */
  function LongTables(): Boot {
    seq(SECTOR, i => if i == 12 then 2 else if i == 13 || i == 14 then 1 else if i == 16 then 2 else if i == 17 then 16
      else if i == 23 then 0x80 else if i == 32 then 0x66 else if i == 34 then 1 else 0)
  }

  lemma RootMissed()
    ensures Readable(LongTables()) && GeometryOf(LongTables()).kind != Fat32
    ensures GeometryOf(LongTables()).FatEnd() == 65537 && RootOf(LongTables()) == RootArea(1, 1)
  {
    var b := LongTables();
    assert b[11] == b[15] == b[18] == b[19] == b[20] == b[22] == b[33] == b[35] == 0;
    assert b[12] == 2 && b[13] == b[14] == b[34] == 1 && b[16] == 2 && b[17] == 16 && b[23] == 0x80 && b[32] == 0x66;
    assert BytesPerSector(b) == SECTOR && Reserved(b) == 1 && FatSize(b) == 0x8000 && RootEntries(b) == 16 && TotalSectors(b) == 65638;
    assert FatSectors(b) == 0x1_0000 && RootDirSectors(b) == 1;
    assert ClusterCount(b) == 100;
  }

  /** 255 tables of 0x01010101 sectors behind 32 reserved ones: the data area is taken to begin at sector
      31, and its clusters end at sector 100 of 100. */
  function WideTables(): Boot {
    seq(SECTOR, i => if i == 12 then 2 else if i == 13 then 1 else if i == 14 then 32 else if i == 16 then 255
      else if i == 32 then 100 else if 36 <= i < 40 then 1 else 0)
  }

  lemma RegionsMissed()
    ensures Readable(WideTables()) && Before(WideTables()) >= U32
    ensures GeometryOf(WideTables()).firstData == 31 && GeometryOf(WideTables()).DataEnd() == TotalSectors(WideTables()) == 100
    ensures GeometryOf(WideTables()).FatEnd() > U32
  {
    var b := WideTables();
    assert b[11] == b[15] == b[17] == b[18] == b[19] == b[20] == b[22] == b[23] == b[33] == b[34] == b[35] == 0;
    assert b[12] == 2 && b[13] == 1 && b[14] == 32 && b[16] == 255 && b[32] == 100 && b[36] == b[37] == b[38] == b[39] == 1;
    assert BytesPerSector(b) == SECTOR && Reserved(b) == 32 && FatSize(b) == 0x0101_0101 && RootEntries(b) == 0 && TotalSectors(b) == 100;
    assert FatSectors(b) == 0xFFFF_FFFF && RootDirSectors(b) == 0;
    assert ClusterCount(b) == 69;
  }

  /** A 1.44 MB diskette: one reserved sector, two tables of 9 sectors, 224 root entries, 2880 sectors. */
  function Diskette(): Boot {
    seq(SECTOR, i => if i == 12 || i == 16 then 2 else if i == 13 || i == 14 then 1 else if i == 17 then 224
      else if i == 19 then 0x40 else if i == 20 then 0x0B else if i == 22 then 9 else 0)
  }

  lemma DisketteRead()
    ensures Readable(Diskette()) && GeometryOf(Diskette()) == Geometry(Fat12, 1, 1, 2, 9, 33, 2847)
    ensures RootOf(Diskette()) == RootArea(19, 14) && GeometryOf(Diskette()).Eoc() == 0xFF8
  {
    var b := Diskette();
    assert b[11] == b[15] == b[18] == b[23] == 0;
    assert b[12] == 2 && b[13] == b[14] == 1 && b[16] == 2 && b[17] == 224 && b[19] == 0x40 && b[20] == 0x0B && b[22] == 9;
    assert BytesPerSector(b) == SECTOR && Reserved(b) == 1 && FatSize(b) == 9 && RootEntries(b) == 224 && TotalSectors(b) == 2880;
    assert FatSectors(b) == 18 && RootDirSectors(b) == 14;
    assert ClusterCount(b) == 2847;
  }

  /** A FAT32 volume of 2^20 sectors, eight a cluster: 32 reserved, two tables of 2^10, the root directory
      from cluster 261 on. */
  function Large(): Boot {
    seq(SECTOR, i => if i == 12 || i == 16 then 2 else if i == 13 then 8 else if i == 14 then 32 else if i == 34 then 16
      else if i == 37 then 4 else if i == 44 then 5 else if i == 45 then 1 else 0)
  }

  lemma LargeRead()
    ensures Readable(Large()) && GeometryOf(Large()) == Geometry(Fat32, 8, 32, 2, 0x400, 2080, 130812)
    ensures RootOf(Large()) == RootChain(261) && GeometryOf(Large()).Eoc() == 0x0FFF_FFF8 && GeometryOf(Large()).FirstSector(261) == 4152
  {
    var b := Large();
    assert b[11] == b[15] == b[17] == b[18] == b[19] == b[20] == b[22] == b[23] == b[32] == b[33] == b[35] == b[36] == b[38] == b[39] == 0;
    assert b[12] == 2 && b[13] == 8 && b[14] == 32 && b[16] == 2 && b[34] == 16 && b[37] == 4;
    assert b[44] == 5 && b[45] == 1 && b[46] == b[47] == 0;
    assert BytesPerSector(b) == SECTOR && Reserved(b) == 32 && FatSize(b) == 0x400 && RootEntries(b) == 0 && TotalSectors(b) == 0x10_0000;
    assert FatSectors(b) == 0x800 && RootDirSectors(b) == 0;
    assert ClusterCount(b) == 130812;
  }

  /** The last count of each type. */
  lemma TypeBounds()
    ensures KindOf(4084) == Fat12 && KindOf(4085) == Fat16 && KindOf(65524) == Fat16 && KindOf(65525) == Fat32
  {
  }

  /** So a root directory handle can be used if and only if the area starts below sector 2^16 and is
      not empty. */
  lemma RootUsable(b: Boot, img: seq<byte>)
    requires Readable(b) && GeometryOf(b).kind != Fat32 && GeometryOf(b).Valid(|img|) && Before(b) < U32
    ensures RootOf(b).RootArea?
    ensures Laid(GeometryOf(b), img, RootDir(RootOf(b).first, RootOf(b).count)) <==>
      GeometryOf(b).FatEnd() < 0x1_0000 && RootEntries(b) > 0
  {
    hide RootDirSectors, TotalSectors, FatSize, Reserved, RootEntries, SectorsPerCluster, NumFats, BytesPerSector, GeometryOf, Before;
    hide Geometry.FatEnd, Geometry.DataEnd, RootOf;
    RootFound(b);
    RegionsFit(b);
  }

  // fat_vol_init
  method VolInit(m: SectorCache) returns (g: Geometry, root: Root, lastAlloc: nat)
    requires m.Coherent() && |m.dev| >= SECTOR && Readable(Sector(m.Img(), 0))
    modifies m, m.buf
    ensures m.Coherent() && m.Img() == old(m.Img()) && lastAlloc == 2
    ensures g == GeometryOf(Sector(m.Img(), 0)) && root == RootOf(Sector(m.Img(), 0))
  {
    m.Get(0);
    var b := m.buf[..];
    g, root, lastAlloc := GeometryOf(b), RootOf(b), 2;
  }
}
