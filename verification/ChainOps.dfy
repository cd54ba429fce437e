/** Finding, linking and freeing clusters on the device (write.c). */
module ChainOps {
  import opened Arithmetic
  import opened Bytes
  import opened Geometry
  import opened Cache
  import opened FatTable
  import opened FatAccess
  import opened Chains

  /** The mutable part of fat_vol_handle, next to the shared cache. */
  class Volume {
    const g: Geometry
    const m: SectorCache
    var lastAlloc: nat         // last_cluster_alloc

    ghost predicate Valid()
      reads this, m, m.buf
    {
      Sound(m, g) && SearchFrom(lastAlloc, g.clusterCount)
    }

    ghost function Tab(): (t: seq<nat>)
      requires Valid()
      reads this, m, m.buf
    {
      Table(m.Img(), g)
    }

    // fat_vol_init after the boot record has been read: the search starts at cluster 2.
    constructor (g: Geometry, m: SectorCache)
      requires m.Coherent() && g.Valid(|m.dev|)
      ensures Valid() && this.g == g && this.m == m && lastAlloc == 2
    {
      this.g := g;
      this.m := m;
      lastAlloc := 2;
    }

    // fat_find_free_cluster
    method FindFreeCluster() returns (r: nat)
      requires Valid()
      modifies `lastAlloc, m, m.buf
      ensures Valid() && m.Img() == old(m.Img()) && Tab() == old(Tab())
      ensures r == NextFree(Tab(), old(lastAlloc), g.clusterCount)
      ensures lastAlloc == if r == 0 then old(lastAlloc) else r
      ensures r == 0 <==> FreeSet(Tab(), g.clusterCount) == {}
      ensures r != 0 ==> r < g.clusterCount
      ensures old(m.Coherent()) ==> m.Coherent()
    {
      NextFreeIff(Tab(), lastAlloc, g.clusterCount);
      hide Geometry.Valid, Table, FreeSet;
      r := SearchRun(lastAlloc, g.clusterCount);
      if r == 0 {
        r := SearchRun(2, lastAlloc);
      }
      if r != 0 {
        lastAlloc := r;
      }
    }

    // Either loop of fat_find_free_cluster.
    method SearchRun(lo: nat, hi: nat) returns (r: nat)
      requires Valid() && 2 <= lo && hi <= g.Entries()
      modifies m, m.buf
      ensures Valid() && m.Img() == old(m.Img()) && r == FirstFree(Tab(), lo, hi)
      ensures old(m.Coherent()) ==> m.Coherent()
    {
      ghost var t := Tab();
      hide Geometry.Valid, Table;
      var i := lo;
      while i < hi
        invariant lo <= i && Valid() && m.Img() == old(m.Img()) && FirstFree(t, lo, hi) == FirstFree(t, i, hi)
        invariant old(m.Coherent()) ==> m.Coherent()
      {
        var next := GetNextCluster(m, g, i);
        if next == 0 {
          return i;
        }
        i := i + 1;
      }
      r := 0;
    }

    // The first-cluster step of fat_write on an empty file.
    method AllocFirstCluster() returns (c: nat)
      requires Valid()
      modifies `lastAlloc, m, m.buf
      ensures Valid() && c == NextFree(old(Tab()), old(lastAlloc), g.clusterCount)
      ensures c == 0 <==> FreeSet(old(Tab()), g.clusterCount) == {}
      ensures lastAlloc == if c == 0 then old(lastAlloc) else c
      ensures c != 0 ==> c < g.clusterCount
      ensures c == 0 ==> m.Img() == old(m.Img())
      ensures c != 0 ==>
        && m.Coherent() && Tab() == old(Tab())[c := g.Eoc()]
        && SameOutsideFat(old(m.Img()), m.Img(), g)
      ensures old(Mirrored(m.Img(), g)) ==> Mirrored(m.Img(), g)
    {
      c := FindFreeCluster();
      if c != 0 {
        EntryInCopy(g, |m.dev|, c);
        SetNextCluster(m, g, c, g.Eoc());
      }
    }

    // fat_alloc_next_cluster
    method AllocNextCluster(cluster: nat, clear: bool) returns (next: nat)
      requires Valid() && g.IsCluster(cluster)
      modifies `lastAlloc, m, m.buf
      ensures m.Shape() && |m.dev| == old(|m.dev|) && SearchFrom(lastAlloc, g.clusterCount)
      ensures old(Tab())[cluster] != g.Eoc() ==>
        next == old(Tab())[cluster] && m.Img() == old(m.Img()) && m.Coherent() && lastAlloc == old(lastAlloc)
      ensures old(Tab())[cluster] == g.Eoc() ==>
        && next == NextFree(old(Tab()), old(lastAlloc), g.clusterCount)
        && (next == 0 <==> FreeSet(old(Tab()), g.clusterCount) == {})
        && (next == 0 ==> m.Img() == old(m.Img()) && m.Coherent() && lastAlloc == old(lastAlloc))
        && (next != 0 ==>
              && lastAlloc == next < g.clusterCount
              && Table(m.Img(), g) == old(Tab())[next := g.Eoc()][cluster := next]
              && (if clear then ClearedOutsideFat(old(m.Img()), m.Img(), g, next)
                  else SameOutsideFat(old(m.Img()), m.Img(), g) && m.Coherent())
              && (clear ==> ClearedTag(m, g, cluster)))
      ensures old(Mirrored(m.Img(), g)) ==> Mirrored(m.Img(), g)
    {
      hide Geometry.Valid, Table, Mirrored, NextFree, InCluster, LastSector, FreeSet;
      next := GetNextCluster(m, g, cluster);
      if next != g.Eoc() {
        return;
      }
      next := FindFreeCluster();
      if next == 0 {
        return;
      }
      Link(m, g, cluster, next);
      if clear {
        ZeroCluster(m, g, next, cluster);
      }
    }

    // fat_chain_unlink
    method ChainUnlink(start: nat)
      requires Valid() && InRange(Tab(), g.Eoc(), start)
      modifies m, m.buf
      ensures Valid() && Tab() == Unlink(old(Tab()), g.Eoc(), start)
      ensures SameOutsideFat(old(m.Img()), m.Img(), g)
      ensures old(Mirrored(m.Img(), g)) ==> Mirrored(m.Img(), g)
    {
      var cluster: nat := start;
      while cluster != 0 && cluster != g.Eoc()
        invariant Valid() && InRange(Tab(), g.Eoc(), cluster) && |m.dev| == old(|m.dev|)
        invariant Unlink(Tab(), g.Eoc(), cluster) == Unlink(old(Tab()), g.Eoc(), start)
        invariant SameOutsideFat(old(m.Img()), m.Img(), g)
        invariant old(Mirrored(m.Img(), g)) ==> Mirrored(m.Img(), g)
        decreases |InUse(Tab())|, if Stop(g.Eoc(), cluster) then 0 else 1
      {
        WalkOn(Tab(), g.Eoc(), cluster);
        ClearedEntry(Tab(), cluster);
        var next := GetNextCluster(m, g, cluster);
        SetNextCluster(m, g, cluster, 0);
        cluster := next;
      }
    }
  }

  /** The two table updates of fat_alloc_next_cluster: end `next`, then hang it behind `cluster`. */
  method Link(m: SectorCache, g: Geometry, cluster: nat, next: nat)
    requires m.Coherent() && g.Valid(|m.dev|) && cluster < g.Entries() && next < g.Entries()
    modifies m, m.buf
    ensures m.Coherent() && |m.dev| == old(|m.dev|)
    ensures Table(m.Img(), g) == old(Table(m.Img(), g))[next := g.Eoc()][cluster := next]
    ensures SameOutsideFat(old(m.Img()), m.Img(), g)
    ensures old(Mirrored(m.Img(), g)) ==> Mirrored(m.Img(), g)
    ensures m.bound && m.sector == LastSector(g, g.numFats - 1, cluster)
  {
    hide Geometry.Valid, Table, Mirrored, LastSector, Geometry.InFat;
    EntryInCopy(g, |m.dev|, next);
    SetNextCluster(m, g, next, g.Eoc());
    SetNextCluster(m, g, cluster, next);
  }

  /** Byte `a` belongs to cluster `c`. */
  predicate InCluster(g: Geometry, c: nat, a: nat)
    requires c >= 2
  {
    SECTOR * g.FirstSector(c) <= a < SECTOR * (g.FirstSector(c) + g.sectorsPerCluster)
  }

  /** Outside the tables only cluster `c` has changed, and it is zero. */
  ghost predicate ClearedOutsideFat(a: seq<byte>, b: seq<byte>, g: Geometry, c: nat)
    requires c >= 2
  {
    |a| == |b| && forall i {:trigger a[i]} {:trigger b[i]} :: 0 <= i < |a| && !g.InFat(i) ==>
      b[i] == if InCluster(g, c, i) then 0 else a[i]
  }

  /** After the clear path: a clean, zero buffer under the tag of the sector written last, in the
      last copy of the table, for the entry of `cluster`. */
  ghost predicate ClearedTag(m: SectorCache, g: Geometry, cluster: nat)
    reads m, m.buf
  {
    && m.Shape() && !m.dirty && g.numFats >= 1
    && m.bound && m.sector == LastSector(g, g.numFats - 1, cluster)
    && forall i :: 0 <= i < SECTOR ==> m.buf[i] == 0
  }

  /** The lookups that go right after the clear path.  Those that begin with another sector than the
      tagged one do; one that begins with it finds zeros there, and so goes right exactly when that
      part of the entry is zero anyway. */
  lemma AfterClear(m: SectorCache, g: Geometry, cluster: nat, c: nat)
    requires ClearedTag(m, g, cluster) && g.Valid(|m.dev|) && cluster < g.Entries() && c < g.Entries()
    ensures Looked(m, g, c) == Table(m.Img(), g)[c] <==>
      || EntrySector(g, 0, c) != m.sector
      || if Straddles(g, c) then Table(m.Img(), g)[c] % (if c % 2 == 1 then 0x10 else 0x100) == 0 else Table(m.Img(), g)[c] == 0
    ensures EntrySector(g, 0, c) == m.sector && !Straddles(g, c) ==> Looked(m, g, c) == 0
  {
    EntryInCopy(g, |m.dev|, 0);
    EntrySectorBounds(g, |m.dev|, 0, c);
    hide Geometry.Valid, Looked, Table, LastSector, Geometry.EntryOff, EntrySector;
    if EntrySector(g, 0, c) != m.sector {
      LookedRight(m, g, c);
    } else if Straddles(g, c) {
      HalfCleared(m, g, c);
    } else {
      WholeCleared(m, g, c);
    }
  }

  lemma WholeCleared(m: SectorCache, g: Geometry, c: nat)
    requires m.Shape() && g.Valid(|m.dev|) && c < g.Entries() && !Straddles(g, c)
    requires m.bound && m.sector == EntrySector(g, 0, c) && forall i :: 0 <= i < SECTOR ==> m.buf[i] == 0
    ensures Looked(m, g, c) == 0
  {
    hide Geometry.Valid, Splice;
    var w, o := m.buf[..], g.EntryOff(c) % SECTOR;
    assert w[o] == 0;
    if o + 2 <= SECTOR { assert Get16(w, o) == 0; }
    if o + 4 <= SECTOR { assert Get32(w, o) == 0; }
  }

  lemma HalfCleared(m: SectorCache, g: Geometry, c: nat)
    requires m.Shape() && g.Valid(|m.dev|) && c < g.Entries() && Straddles(g, c) && g.kind == Fat12
    requires m.bound && m.sector == EntrySector(g, 0, c) && forall i :: 0 <= i < SECTOR ==> m.buf[i] == 0
    ensures Looked(m, g, c) == Table(m.Img(), g)[c] <==> Table(m.Img(), g)[c] % (if c % 2 == 1 then 0x10 else 0x100) == 0
  {
    hide Geometry.Valid, Splice, Geometry.FatBase, Geometry.EntryOff, Geometry.FatEnd, Take12;
    EntryInCopy(g, |m.dev|, 0);
    EntrySectorBounds(g, |m.dev|, 0, c);
    var s := EntrySector(g, 0, c);
    BufferedLoads(m.Img(), s, SECTOR - 1);
    BufferedLoads(m.Img(), s + 1, 0);
    var lo, hi: int := Sector(m.Img(), s)[SECTOR - 1], Sector(m.Img(), s + 1)[0] as int;
    assert Looked(m, g, c) == Take12(c % 2 == 1, 0x100 * hi);
    assert Table(m.Img(), g)[c] == Take12(c % 2 == 1, lo + 0x100 * hi);
    HalfEntry(c % 2 == 1, lo, hi);
  }

  lemma HalfEntry(odd: bool, lo: nat, hi: nat)
    requires lo < 0x100 && hi < 0x100
    ensures Take12(odd, 0x100 * hi) == Take12(odd, lo + 0x100 * hi) <==> Take12(odd, lo + 0x100 * hi) % (if odd then 0x10 else 0x100) == 0
  {
    if odd {
      OddHalf(lo, hi);
    } else {
      EvenHalf(lo, hi);
    }
  }

  lemma OddHalf(lo: nat, hi: nat)
    requires lo < 0x100
    ensures (lo + 0x100 * hi) / 0x10 == lo / 0x10 + 0x10 * hi && 0x100 * hi / 0x10 == 0x10 * hi
    ensures (lo / 0x10 + 0x10 * hi) % 0x10 == lo / 0x10
  {
  }

  lemma EvenHalf(lo: nat, hi: nat)
    requires lo < 0x100
    ensures (lo + 0x100 * hi) % 0x1000 == lo + 0x100 * (hi % 0x10) && 0x100 * hi % 0x1000 == 0x100 * (hi % 0x10)
    ensures (lo + 0x100 * (hi % 0x10)) % 0x100 == lo
  {
  }

  /** The next lookup of the cluster just extended returns the new link if and only if there is a
      second copy of the table or the entry runs over a sector boundary; else it returns 0. */
  lemma StaleTag(m: SectorCache, g: Geometry, cluster: nat)
    requires ClearedTag(m, g, cluster) && g.Valid(|m.dev|) && cluster < g.Entries() && Table(m.Img(), g)[cluster] != 0
    ensures Looked(m, g, cluster) == Table(m.Img(), g)[cluster] <==> g.numFats >= 2 || Straddles(g, cluster)
    ensures g.numFats == 1 && !Straddles(g, cluster) ==> Looked(m, g, cluster) == 0
  {
    hide Geometry.Valid, Looked, Table, LastSector, EntrySector, Straddles;
    AfterClear(m, g, cluster, cluster);
    TagElsewhere(g, |m.dev|, cluster);
  }

  /** A lookup begins with the sector last written unless that was in another copy, or the entry runs
      over into it. */
  lemma TagElsewhere(g: Geometry, len: nat, c: nat)
    requires g.Valid(len) && c < g.Entries()
    ensures EntrySector(g, 0, c) != LastSector(g, g.numFats - 1, c) <==> g.numFats >= 2 || Straddles(g, c)
  {
    hide Geometry.Valid;
    EntryInCopy(g, len, 0);
    EntrySectorBounds(g, len, 0, c);
    LastInCopy(g, len, g.numFats - 1, c);
    if g.numFats >= 2 {
      MulMono(1, g.numFats - 1, g.fatSize);
    }
  }

  // The `clear` branch: flush, zero the shared buffer and write it to every sector of the cluster.
  method ZeroCluster(m: SectorCache, g: Geometry, c: nat, ghost cluster: nat)
    requires m.Coherent() && g.Valid(|m.dev|) && g.IsCluster(c)
    requires m.bound && m.sector == LastSector(g, g.numFats - 1, cluster)
    modifies m, m.buf
    ensures ClearedTag(m, g, cluster) && |m.dev| == old(|m.dev|)
    ensures ClearedOutsideFat(old(m.Img()), m.Img(), g, c)
    ensures Table(m.Img(), g) == old(Table(m.Img(), g))
    ensures old(Mirrored(m.Img(), g)) ==> Mirrored(m.Img(), g)
  {
    EntryInCopy(g, |m.dev|, c);
    hide Geometry.Valid, Table, Mirrored, LastSector, Geometry.FirstSector;
    ClusterBounds(g, |m.dev|, c);
    var sector := g.FirstSector(c);
    m.Flush();
    forall i | 0 <= i < m.buf.Length { m.buf[i] := 0; }
    ghost var img := m.dev;
    var i := 0;
    while i < g.sectorsPerCluster
      invariant 0 <= i <= g.sectorsPerCluster
      invariant ClearedTag(m, g, cluster) && |m.dev| == |img|
      invariant forall a :: 0 <= a < |img| ==>
        m.dev[a] == if SECTOR * sector <= a < SECTOR * (sector + i) then 0 else img[a]
    {
      m.dev := Splice(m.dev, SECTOR * (sector + i), m.buf[..]);
      i := i + 1;
    }
    SameFat(img, m.dev, g);
  }

  // ---- The stale tag at work ---------------------------------------------------------------

  /** The smallest FAT16 volume with one table, and a file that occupies cluster 2. */
  function OneCopy(): Geometry { Geometry(Fat16, 1, 1, 1, 16, 17, 4085) }

  function OneCopyImage(): (img: seq<byte>)
    ensures |img| == SECTOR * 4102 && OneCopy().Valid(|img|)
  {
    seq(SECTOR * 4102, i => if i == 516 then 0xF8 else if i == 517 then 0xFF else 0)
  }

  lemma OneCopyTable()
    ensures var t := Table(OneCopyImage(), OneCopy()); t[2] == 0xFFF8 && t[3] == 0 && NextFree(t, 2, 4085) == 3
  {
    var img := OneCopyImage();
    assert OneCopy().EntryAddr(0, 2) == 516 && OneCopy().EntryAddr(0, 3) == 518;
    assert img[516] == 0xF8 && img[517] == 0xFF && img[518] == 0 && img[519] == 0;
    assert Get16(img, 516) == 0xFFF8 && Get16(img, 518) == 0;
  }

  /** Extending that file with a cleared cluster links cluster 3, and the lookup that follows does
      not find it. */
  method ExtendAndLookUp() returns (next: nat, again: nat, ghost link: nat)
    ensures next == 3 && link == 3 && again == 0
  {
    hide Geometry.Valid, Table, NextFree, FreeSet, OneCopyImage, ClearedOutsideFat, Looked;
    OneCopyTable();
    var m := new SectorCache(OneCopyImage());
    var v := new Volume(OneCopy(), m);
    next := v.AllocNextCluster(2, true);
    link := Table(m.Img(), OneCopy())[2];
    StaleTag(m, OneCopy(), 2);
    again := GetNextCluster(m, OneCopy(), 2);
  }
}
