/** The two shapes of file: the fixed FAT12/16 root directory and cluster chains. */
module Layouts {
  import opened Arithmetic
  import opened Bytes
  import opened Geometry
  import opened FatTable
  import opened Chains
  import opened Extents
  import opened Growth

  datatype Layout = RootDir(first: nat, count: nat) | Chained(ch: seq<nat>)

  /** The layout is real: whole chains of data clusters, or sectors between tables and data. */
  ghost predicate Laid(g: Geometry, img: seq<byte>, lay: Layout) {
    && g.Valid(|img|) && g.sectorsPerCluster >= 1
    && match lay
       case RootDir(first, count) => count > 0 && g.FatEnd() <= first && first + count <= g.firstData
       case Chained(ch) => AllClusters(g, ch) && (ch != [] ==> IsChain(Table(img, g), g.Eoc(), ch))
  }

  ghost predicate Usable(g: Geometry, lay: Layout) {
    g.sectorsPerCluster >= 1 && (lay.Chained? ==> AllClusters(g, lay.ch))
  }

  /** The sectors of the file in order. */
  ghost function Secs(g: Geometry, lay: Layout): (secs: seq<nat>)
    requires Usable(g, lay)
    ensures |secs| == if lay.RootDir? then lay.count else |lay.ch| * g.sectorsPerCluster
  {
    match lay
    case RootDir(first, count) => seq(count, k requires 0 <= k < count => first + k)
    case Chained(ch) => ChainSectors(g, ch)
  }

  ghost function Total(g: Geometry, lay: Layout): nat
    requires Usable(g, lay)
  {
    SECTOR * |Secs(g, lay)|
  }

  lemma LaidGood(g: Geometry, img: seq<byte>, lay: Layout)
    requires Laid(g, img, lay)
    ensures var secs := Secs(g, lay);
      && OnDevice(secs, |img|) && Injective(secs)
      && forall k :: 0 <= k < |secs| ==> g.FatEnd() <= secs[k]
  {
    hide Geometry.Valid, ChainSectors, Table;
    DeviceHoldsFats(g, |img|);
    if lay.Chained? && lay.ch != [] {
      ChainSectorsGood(g, img, lay.ch);
    }
  }

  /** The file's bytes, to the end of its last sector. */
  ghost function Data(g: Geometry, img: seq<byte>, lay: Layout): (d: seq<byte>)
    requires Laid(g, img, lay)
    ensures |d| == Total(g, lay)
  {
    LaidGood(g, img, lay);
    Content(img, Secs(g, lay))
  }

  /** The cluster holding sector `k` of a chained file; the end marker past the last one. */
  ghost function ClusterAt(g: Geometry, ch: seq<nat>, k: nat): nat
    requires g.sectorsPerCluster >= 1
  {
    if k / g.sectorsPerCluster < |ch| then ch[k / g.sectorsPerCluster] else g.Eoc()
  }

  /** The cursor invariant: `cur` is the cluster of the position. */
  ghost predicate CursorAt(g: Geometry, lay: Layout, pos: nat, cur: nat)
    requires Usable(g, lay)
  {
    && pos <= Total(g, lay)
    && cur == match lay
         case RootDir(first, _) => first
         case Chained(ch) => if ch == [] then 0 else ClusterAt(g, ch, pos / SECTOR)
  }

  lemma LaidUsable(g: Geometry, img: seq<byte>, lay: Layout)
    requires Laid(g, img, lay)
    ensures Usable(g, lay) && g.FatEnd() <= g.firstData
  {
    hide Geometry.FatEnd, Geometry.DataEnd, Geometry.EntryOff, Table, IsChain;
  }

  lemma LinkAt(g: Geometry, img: seq<byte>, ch: seq<nat>, j: nat)
    requires Laid(g, img, Chained(ch))
    ensures forall i :: 0 <= i < |ch| ==> ch[i] < g.Eoc()
    ensures j < |ch| ==> ch[j] < g.Entries() && Table(img, g)[ch[j]] == if j + 1 < |ch| then ch[j + 1] else g.Eoc()
  {
  }

  // ---- Arithmetic of seeking and stepping -------------------------------------------------

  ghost predicate Product(j: nat, step: nat, base: nat) { base == j * step }

  lemma ProductZero(step: nat)
    ensures Product(0, step, 0)
  {
  }

  /** A seek inside a chain of `n` clusters never walks off its end. */
  lemma SeekStep(n: nat, spc: nat, pos: nat, base: nat, j: nat)
    requires spc >= 1 && pos <= SECTOR * (n * spc)
    requires Product(j, spc * SECTOR, base) && pos >= base + spc * SECTOR
    ensures j < n && Product(j + 1, spc * SECTOR, base + spc * SECTOR)
  {
    assert j * (spc * SECTOR) == SECTOR * (j * spc);
    MulSucc(j, spc * SECTOR);
    if j >= n { MulMono(n, j, spc); }
  }

  lemma SeekFound(spc: nat, pos: nat, base: nat, j: nat)
    requires spc >= 1 && Product(j, spc * SECTOR, base) && base <= pos < base + spc * SECTOR
    ensures pos / SECTOR / spc == j
  {
    var off := pos - base;
    assert j * (spc * SECTOR) == SECTOR * (j * spc);
    WithinSector(j * spc + off / SECTOR, off % SECTOR);
    assert pos == SECTOR * (j * spc + off / SECTOR) + off % SECTOR;
    DivExact(j, off / SECTOR, spc);
  }

  /** A position inside a chained file has a cluster in the chain. */
  lemma InsideChain(n: nat, spc: nat, k: nat)
    requires spc >= 1
    ensures k < n * spc <==> k / spc < n
  {
    assert k == k / spc * spc + k % spc;
    MulSucc(k / spc, spc);
    if k < n * spc {
      DivBound(k, spc, n);
    } else if k / spc < n {
      MulMono(k / spc + 1, n, spc);
    }
  }

  /** Moving inside one sector, or up to its end, the cursor's cluster stays right. */
  lemma CursorSameSector(g: Geometry, lay: Layout, pos: nat, pos': nat, cur: nat)
    requires Usable(g, lay) && CursorAt(g, lay, pos, cur) && pos < Total(g, lay)
    requires pos < pos' <= SECTOR * (pos / SECTOR + 1)
    ensures pos' <= Total(g, lay) && CursorAt(g, lay, pos' - 1, cur)
    ensures pos' % SECTOR != 0 ==> CursorAt(g, lay, pos', cur)
    ensures pos' % SECTOR == 0 ==> pos' / SECTOR == pos / SECTOR + 1
  {
    hide Secs, ClusterAt;
  }

  /** A chunk that does not fill its sector is the last one. */
  lemma ChunkEnd(pos: nat, chunk: nat)
    requires 0 < chunk <= SECTOR - pos % SECTOR
    ensures pos + chunk <= SECTOR * (pos / SECTOR + 1)
    ensures (pos + chunk) % SECTOR == 0 <==> chunk == SECTOR - pos % SECTOR
  {
  }

  /** The sector under the cursor. */
  lemma CursorSector(g: Geometry, lay: Layout, pos: nat, cur: nat)
    requires Usable(g, lay) && CursorAt(g, lay, pos, cur) && pos < Total(g, lay)
    ensures var k := pos / SECTOR;
      && k < |Secs(g, lay)|
      && match lay
         case RootDir(_, _) => Secs(g, lay)[k] == cur + k
         case Chained(ch) => cur in ch && cur >= 2 && Secs(g, lay)[k] == g.FirstSector(cur) + k % g.sectorsPerCluster
  {
    hide Geometry.FirstSector;
    if lay.Chained? {
      InsideChain(|lay.ch|, g.sectorsPerCluster, pos / SECTOR);
    }
  }

  /**
   * Crossing from sector `k - 1` to sector `k`: inside a cluster the next sector follows and the
   * cluster stays; at its end the chain says where to go on.
   */
  lemma Crossing(g: Geometry, ch: seq<nat>, k: nat)
    requires g.sectorsPerCluster >= 1 && AllClusters(g, ch) && 0 < k <= |ch| * g.sectorsPerCluster
    ensures var spc, i := g.sectorsPerCluster, (k - 1) / g.sectorsPerCluster;
      && i < |ch| && ChainSectors(g, ch)[k - 1] == g.FirstSector(ch[i]) + (k - 1) % spc
      && if (k - 1) % spc + 1 == spc then
           k / spc == i + 1 && k == (i + 1) * spc && (i + 1 < |ch| ==> k < |ch| * spc && ChainSectors(g, ch)[k] == g.FirstSector(ch[i + 1]))
         else
           k / spc == i && k < |ch| * spc && ChainSectors(g, ch)[k] == ChainSectors(g, ch)[k - 1] + 1
  {
    hide Geometry.FirstSector;
    var spc := g.sectorsPerCluster;
    var i, r := SectorPlace(g, ch, k - 1);
    DivStep(k - 1, spc);
    MulSucc(i, spc);
    if r + 1 == spc {
      if i + 1 < |ch| { InsideChain(|ch|, spc, k); }
    } else {
      InsideChain(|ch|, spc, k);
    }
  }

  /** The position is where cluster `i` of a chained file ends. */
  ghost predicate EndOf(g: Geometry, i: nat, pos: nat) { pos == SECTOR * ((i + 1) * g.sectorsPerCluster) }

  // The tests for the end of a cluster: fat_read allows for the data area's start, fat_write does not.
  predicate ReadTest(g: Geometry, sector: nat)
    requires g.sectorsPerCluster >= 1
  {
    sector % g.sectorsPerCluster == g.firstData % g.sectorsPerCluster
  }

  predicate WriteTest(g: Geometry, sector: nat)
    requires g.sectorsPerCluster >= 1
  {
    sector % g.sectorsPerCluster == 0
  }

  /** The data area starts on a multiple of the cluster size, as fat_write needs. */
  predicate Aligned(g: Geometry)
    requires g.sectorsPerCluster >= 1
  {
    g.firstData % g.sectorsPerCluster == 0
  }

  /**
   * What the boundary tests of fat_read and fat_write find out about a sector-aligned position,
   * `cur` being the cluster of the byte before it.
   */
  lemma CrossCase(g: Geometry, ch: seq<nat>, pos: nat, cur: nat) returns (i: nat, atEnd: bool)
    requires Usable(g, Chained(ch)) && 0 < pos <= Total(g, Chained(ch)) && pos % SECTOR == 0
    requires CursorAt(g, Chained(ch), pos - 1, cur)
    ensures i < |ch| && cur == ch[i]
    ensures var after := Secs(g, Chained(ch))[pos / SECTOR - 1] + 1;
      && (ReadTest(g, after) <==> atEnd)
      && (Aligned(g) ==> (WriteTest(g, after) <==> atEnd))
      && (!atEnd ==> pos < Total(g, Chained(ch)) && CursorAt(g, Chained(ch), pos, cur) && Secs(g, Chained(ch))[pos / SECTOR] == after)
    ensures atEnd ==> EndOf(g, i, pos)
  {
    hide Geometry.FirstSector, ChainSectors;
    var spc, k := g.sectorsPerCluster, pos / SECTOR;
    assert (pos - 1) / SECTOR == k - 1;
    Crossing(g, ch, k);
    i := (k - 1) / spc;
    atEnd := (k - 1) % spc + 1 == spc;
    BoundaryTest(g, ch[i], (k - 1) % spc);
  }

  /** In the root directory the next sector simply follows. */
  lemma RootStep(g: Geometry, lay: Layout, pos: nat, cur: nat)
    requires Usable(g, lay) && lay.RootDir? && 0 < pos <= Total(g, lay) && pos % SECTOR == 0
    requires CursorAt(g, lay, pos - 1, cur)
    ensures CursorAt(g, lay, pos, cur)
    ensures pos < Total(g, lay) ==> Secs(g, lay)[pos / SECTOR] == Secs(g, lay)[pos / SECTOR - 1] + 1
  {
  }

  /** Arriving at a cluster's end: on the next cluster if there is one, else at the end of the file. */
  lemma Arrive(g: Geometry, ch: seq<nat>, i: nat, pos: nat)
    requires Usable(g, Chained(ch)) && EndOf(g, i, pos) && i < |ch|
    ensures i + 1 < |ch| ==>
      && pos < Total(g, Chained(ch)) && CursorAt(g, Chained(ch), pos, ch[i + 1])
      && Secs(g, Chained(ch))[pos / SECTOR] == g.FirstSector(ch[i + 1])
    ensures i + 1 == |ch| ==> pos == Total(g, Chained(ch)) && CursorAt(g, Chained(ch), pos, g.Eoc())
  {
    hide Geometry.FirstSector;
    var spc := g.sectorsPerCluster;
    DivExact(i + 1, 0, spc);
    if i + 1 < |ch| {
      InsideChain(|ch|, spc, (i + 1) * spc);
    }
  }

  /**
   * fat_write tests `sector % sectors_per_cluster == 0`.  That finds the ends of clusters exactly
   * on volumes whose data area starts on a multiple of the cluster size.
   */
  lemma WriteTestSound(g: Geometry, c: nat)
    requires c >= 2 && g.sectorsPerCluster >= 1
    ensures Aligned(g) <==>
      forall s :: g.FirstSector(c) < s <= g.FirstSector(c) + g.sectorsPerCluster ==>
        (WriteTest(g, s) <==> s == g.FirstSector(c) + g.sectorsPerCluster)
  {
    var spc := g.sectorsPerCluster;
    if Aligned(g) {
      forall s | g.FirstSector(c) < s <= g.FirstSector(c) + spc
        ensures WriteTest(g, s) <==> s == g.FirstSector(c) + spc
      {
        BoundaryTest(g, c, s - g.FirstSector(c) - 1);
      }
    } else {
      BoundaryTest(g, c, spc - 1);
      assert !WriteTest(g, g.FirstSector(c) + spc);
    }
  }

  /** On any other volume the test fails at the end of a cluster, where the next sector is the first one of
      the cluster that follows on the disk, whoever owns it; and it holds inside the cluster. */
  lemma RunsOn(g: Geometry, c: nat)
    requires c >= 2 && g.sectorsPerCluster >= 1 && !Aligned(g)
    ensures !WriteTest(g, g.FirstSector(c) + g.sectorsPerCluster)
    ensures g.FirstSector(c) + g.sectorsPerCluster == g.FirstSector(c + 1)
    ensures var s := g.FirstSector(c) + g.sectorsPerCluster - g.firstData % g.sectorsPerCluster;
      g.FirstSector(c) < s < g.FirstSector(c) + g.sectorsPerCluster && WriteTest(g, s)
  {
    hide Geometry.FirstSector;
    var spc, n := g.sectorsPerCluster, c - 2 + g.firstData / g.sectorsPerCluster;
    FirstParts(g, c);
    MulSucc(n, spc);
    DivExact(n + 1, g.firstData % spc, spc);
    DivExact(n + 1, 0, spc);
  }

  lemma FirstParts(g: Geometry, c: nat)
    requires c >= 2 && g.sectorsPerCluster >= 1
    ensures var spc := g.sectorsPerCluster;
      && g.FirstSector(c) == (c - 2 + g.firstData / spc) * spc + g.firstData % spc
      && g.FirstSector(c + 1) == g.FirstSector(c) + spc
  {
    var spc, q := g.sectorsPerCluster, g.firstData / g.sectorsPerCluster;
    assert (c - 2) * spc + q * spc == (c - 2 + q) * spc;
    MulSucc(c - 2, spc);
  }

  /** With clusters of two sectors from sector 3 on, a write into the second sector of cluster 2 goes on in
      cluster 3, and one into the first sector leaves cluster 2 at once. */
  lemma OddStart()
    ensures var g := Geometry(Fat16, 2, 1, 1, 1, 3, 5000);
      && g.FirstSector(2) == 3 && WriteTest(g, 4) && !WriteTest(g, 5) && g.FirstSector(3) == 5
  {
  }

  // ---- A position ahead of its cursor ------------------------------------------------------

  /** Whole clusters. */
  predicate Slip(g: Geometry, slip: nat)
    requires g.sectorsPerCluster >= 1
  {
    slip % SECTOR == 0 && slip / SECTOR % g.sectorsPerCluster == 0
  }

  lemma NoSlip(g: Geometry)
    requires g.sectorsPerCluster >= 1
    ensures Slip(g, 0)
  {
  }

  /** Sector and offset inside a cluster do not see whole clusters. */
  lemma SlipSame(g: Geometry, at: nat, slip: nat)
    requires g.sectorsPerCluster >= 1 && Slip(g, slip)
    ensures (at + slip) % SECTOR == at % SECTOR
    ensures (at + slip) / SECTOR % g.sectorsPerCluster == at / SECTOR % g.sectorsPerCluster
    ensures slip == 0 ==> (at + slip) / SECTOR == at / SECTOR
  {
    var spc, k, j := g.sectorsPerCluster, at / SECTOR, slip / SECTOR;
    assert (at + slip) / SECTOR == k + j;
    var a, b := k / spc, j / spc;
    assert j == b * spc;
    assert k + j == a * spc + b * spc + k % spc == (a + b) * spc + k % spc;
    DivExact(a + b, k % spc, spc);
  }

  lemma SlipMore(g: Geometry, slip: nat)
    requires g.sectorsPerCluster >= 1 && Slip(g, slip)
    ensures Slip(g, slip + SECTOR * g.sectorsPerCluster)
  {
    var spc, j := g.sectorsPerCluster, slip / SECTOR;
    var b := j / spc;
    assert j == b * spc;
    MulSucc(b, spc);
    DivExact(b + 1, 0, spc);
    assert (slip + SECTOR * spc) / SECTOR == j + spc;
  }

  /** The last cluster is the cursor of the position one cluster before the end. */
  lemma LastStart(g: Geometry, ch: seq<nat>)
    requires Usable(g, Chained(ch)) && ch != []
    ensures var total, step := Total(g, Chained(ch)), SECTOR * g.sectorsPerCluster;
      && step <= total && total == SECTOR * ((|ch| - 1) * g.sectorsPerCluster) + step
      && CursorAt(g, Chained(ch), total - step, ch[|ch| - 1])
  {
    hide ChainSectors;
    var spc := g.sectorsPerCluster;
    MulSucc(|ch| - 1, spc);
    DivExact(|ch| - 1, 0, spc);
  }

  /** A write from `at` on ends inside the sector it begins in. */
  predicate InSector(at: nat, len: nat) {
    at % SECTOR + len < SECTOR
  }

  // ---- Sizes ------------------------------------------------------------------------------

  ghost function Below(lo: nat, hi: nat): (s: set<nat>)
    requires lo <= hi
    ensures |s| == hi - lo && forall x :: x in s <==> lo <= x < hi
    decreases hi - lo
  {
    if lo == hi then {} else Below(lo, hi - 1) + {hi - 1}
  }

  ghost function Elements(ch: seq<nat>): set<nat> { set x | x in ch }

  lemma {:induction false} DistinctSize(ch: seq<nat>)
    requires forall i, j :: 0 <= i < |ch| && 0 <= j < |ch| && ch[i] == ch[j] ==> i == j
    ensures |Elements(ch)| == |ch|
    decreases |ch|
  {
    if ch != [] {
      var n := |ch| - 1;
      var rest := ch[..n];
      assert forall i :: 0 <= i < n ==> rest[i] == ch[i];
      DistinctSize(rest);
      assert ch[n] !in rest;
      assert ch == rest + [ch[n]];
      assert Elements(ch) == Elements(rest) + {ch[n]};
    }
  }

  lemma SubsetSize<T>(a: set<T>, b: set<T>)
    requires a <= b
    ensures |a| <= |b|
  {
    assert b == a + (b - a);
  }

  /** A chain is never longer than the volume has clusters, so positions stay below 2^32. */
  lemma LaidSize(g: Geometry, img: seq<byte>, lay: Layout)
    requires Laid(g, img, lay)
    ensures Total(g, lay) < U32
    ensures lay.Chained? ==> |lay.ch| <= g.clusterCount
  {
    hide Table, ChainSectors;
    EntryFitsFirst(g, |img|);
    if lay.Chained? {
      ChainLength(g, img, lay.ch);
      MulMono(|lay.ch|, g.clusterCount, g.sectorsPerCluster);
    }
  }

  lemma ChainLength(g: Geometry, img: seq<byte>, ch: seq<nat>)
    requires Laid(g, img, Chained(ch))
    ensures |ch| <= g.clusterCount
  {
    hide Table, Geometry.Valid;
    if ch != [] {
      ChainDistinct(Table(img, g), g.Eoc(), ch);
      DistinctSize(ch);
      SubsetSize(Elements(ch), Below(2, g.Entries()));
    }
  }

  lemma EntryFitsFirst(g: Geometry, len: nat)
    requires g.Valid(len)
    ensures 1 <= g.FatEnd() <= g.firstData && SECTOR * g.DataEnd() <= len <= U32
  {
    EntryInCopy(g, len, 0);
    MulMono(1, g.numFats, g.fatSize);
  }

  /** A cursor is on cluster 0 exactly when the file has no cluster yet. */
  lemma EmptyCursor(g: Geometry, img: seq<byte>, lay: Layout, pos: nat, cur: nat)
    requires Laid(g, img, lay) && CursorAt(g, lay, pos, cur)
    ensures cur == 0 <==> lay == Chained([])
    ensures lay == Chained([]) ==> pos == 0
    ensures pos <= Total(g, lay) < U32
  {
    hide Table, IsChain, ChainSectors, Secs, ClusterAt, Geometry.Valid, Geometry.FatEnd;
    EntryFitsFirst(g, |img|);
    LaidSize(g, img, lay);
    EmptySize(g);
    if lay.Chained? {
      ClusterPositive(g, lay.ch, pos / SECTOR);
    }
  }

  lemma ClusterPositive(g: Geometry, ch: seq<nat>, k: nat)
    requires g.sectorsPerCluster >= 1 && AllClusters(g, ch)
    ensures ClusterAt(g, ch, k) > 0
  {
    assert g.Eoc() > 0;
  }

  lemma EmptySize(g: Geometry)
    requires g.sectorsPerCluster >= 1
    ensures Total(g, Chained([])) == 0
  {
  }

  /** After an allocation failure the cursor still names the last cluster, one short of the position. */
  lemma StaleCursor(g: Geometry, img: seq<byte>, ch: seq<nat>)
    requires Laid(g, img, Chained(ch)) && ch != []
    ensures !CursorAt(g, Chained(ch), Total(g, Chained(ch)), ch[|ch| - 1])
  {
    hide Geometry.Valid, Table, IsChain, ChainSectors;
    LinkAt(g, img, ch, |ch| - 1);
    DivExact(|ch|, 0, g.sectorsPerCluster);
  }

  /** The first cluster is the cursor of the positions inside it, and of no others. */
  lemma FirstCursor(g: Geometry, img: seq<byte>, lay: Layout, pos: nat, first: nat)
    requires Laid(g, img, lay) && Usable(g, lay) && pos <= Total(g, lay)
    requires first == match lay case RootDir(f, _) => f case Chained(ch) => if ch == [] then 0 else ch[0]
    ensures CursorAt(g, lay, pos, first) <==> lay.RootDir? || pos < g.sectorsPerCluster * SECTOR
  {
    hide Geometry.Valid, Table, ChainSectors, ClusterAt;
    if lay.Chained? && lay.ch != [] {
      assert forall i :: 0 < i < |lay.ch| ==> lay.ch[i] != lay.ch[0] by { ChainDistinct(Table(img, g), g.Eoc(), lay.ch); }
      LinkAt(g, img, lay.ch, 0);
      ClusterFirst(g, lay.ch, pos);
    }
  }

  lemma ClusterFirst(g: Geometry, ch: seq<nat>, pos: nat)
    requires g.sectorsPerCluster >= 1 && ch != [] && (forall i :: 0 < i < |ch| ==> ch[i] != ch[0]) && ch[0] < g.Eoc()
    ensures ClusterAt(g, ch, pos / SECTOR) == ch[0] <==> pos < g.sectorsPerCluster * SECTOR
  {
    FirstIndex(g.sectorsPerCluster, pos);
  }

  lemma FirstIndex(spc: nat, pos: nat)
    requires spc >= 1
    ensures pos / SECTOR / spc == 0 <==> pos < spc * SECTOR
  {
    InsideChain(1, spc, pos / SECTOR);
  }

  lemma RootTotal(g: Geometry, lay: Layout)
    requires Usable(g, lay)
    ensures lay.RootDir? ==> Total(g, lay) == SECTOR * lay.count
  {
  }
}
