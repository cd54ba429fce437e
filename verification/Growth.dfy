/** What writing does to the disk, step by step: patching a sector of a file and growing its chain. */
module Growth {
  import opened Arithmetic
  import opened Bytes
  import opened Geometry
  import opened FatTable
  import opened Chains
  import opened ChainOps
  import opened Extents
  import Forest

  /** Byte `a` belongs to a cluster of the chain. */
  ghost predicate InChain(g: Geometry, ch: seq<nat>, a: nat)
    requires AllClusters(g, ch)
  {
    exists i :: 0 <= i < |ch| && InCluster(g, ch[i], a)
  }

  /** Outside the tables and the clusters of `ch` the images agree. */
  ghost predicate Outside(g: Geometry, img: seq<byte>, img': seq<byte>, ch: seq<nat>)
    requires AllClusters(g, ch)
  {
    |img'| == |img| && forall a {:trigger img[a]} {:trigger img'[a]} ::
      0 <= a < |img| && !g.InFat(a) && !InChain(g, ch, a) ==> img'[a] == img[a]
  }

  /** `new` is `old`, longer or not, with `d` at `pos`; with `clear` any other new bytes are zero. */
  ghost predicate Overwritten(old_: seq<byte>, new_: seq<byte>, pos: nat, d: seq<byte>, clear: bool) {
    && |old_| <= |new_| && pos + |d| <= |new_|
    && forall p {:trigger new_[p]} :: 0 <= p < |new_| ==>
        if pos <= p < pos + |d| then new_[p] == d[p - pos]
        else if p < |old_| then new_[p] == old_[p]
        else clear ==> new_[p] == 0
  }

  lemma OverwrittenPatch(old_: seq<byte>, new_: seq<byte>, pos: nat, d: seq<byte>, e: seq<byte>, clear: bool)
    requires Overwritten(old_, new_, pos, d, clear) && pos + |d| + |e| <= |new_|
    ensures Overwritten(old_, Splice(new_, pos + |d|, e), pos, d + e, clear)
  {
  }

  lemma OverwrittenGrow(old_: seq<byte>, new_: seq<byte>, new': seq<byte>, pos: nat, d: seq<byte>, clear: bool)
    requires Overwritten(old_, new_, pos, d, clear) && |new_| <= |new'|
    requires new'[..|new_|] == new_
    requires clear ==> forall p :: |new_| <= p < |new'| ==> new'[p] == 0
    ensures Overwritten(old_, new', pos, d, clear)
  {
    forall p | 0 <= p < |new_| ensures new'[p] == new_[p] {
      assert new'[..|new_|][p] == new_[p];
    }
  }

  /** The file's sector list is usable: a whole chain, on the device, each sector once. */
  lemma ChainSectorsGood(g: Geometry, img: seq<byte>, ch: seq<nat>)
    requires g.Valid(|img|) && IsChain(Table(img, g), g.Eoc(), ch)
    ensures g.sectorsPerCluster >= 1 && AllClusters(g, ch)
    ensures var secs := ChainSectors(g, ch);
      && OnDevice(secs, |img|) && Injective(secs)
      && forall k :: 0 <= k < |secs| ==> g.FatEnd() <= g.firstData <= secs[k]
  {
    hide Geometry.Valid, ChainSectors;
    ValidSpc(g, |img|);
    DeviceHoldsFats(g, |img|);
    ChainDistinct(Table(img, g), g.Eoc(), ch);
    ChainOnDevice(g, |img|, ch);
    ChainInjective(g, ch);
  }

  /** A write that stays in the data area leaves the tables alone. */
  lemma DataWriteKeepsFat(g: Geometry, img: seq<byte>, at: nat, d: seq<byte>)
    requires g.Valid(|img|) && at + |d| <= |img| && SECTOR * g.FatEnd() <= at
    ensures Table(Splice(img, at, d), g) == Table(img, g)
    ensures Mirrored(img, g) ==> Mirrored(Splice(img, at, d), g)
  {
    hide Geometry.Valid, Geometry.FatEnd, Table, Mirrored;
    SameFat(img, Splice(img, at, d), g);
  }

  lemma OutsidePatch(g: Geometry, img: seq<byte>, ch: seq<nat>, k: nat, off: nat, d: seq<byte>)
    requires g.sectorsPerCluster >= 1 && AllClusters(g, ch)
    requires k < |ch| * g.sectorsPerCluster && off + |d| <= SECTOR
    requires SECTOR * ChainSectors(g, ch)[k] + off + |d| <= |img|
    ensures Outside(g, img, Splice(img, SECTOR * ChainSectors(g, ch)[k] + off, d), ch)
  {
    hide ChainSectors, Geometry.FirstSector;
    var i, r := SectorPlace(g, ch, k);
    var s := ChainSectors(g, ch)[k];
    forall a | SECTOR * s + off <= a < SECTOR * s + off + |d|
      ensures InChain(g, ch, a)
    {
      assert InCluster(g, ch[i], a);
    }
  }

  lemma OutsideTrans(g: Geometry, a: seq<byte>, b: seq<byte>, c: seq<byte>, ch: seq<nat>, ch': seq<nat>)
    requires AllClusters(g, ch) && AllClusters(g, ch') && ch <= ch'
    requires Outside(g, a, b, ch) && Outside(g, b, c, ch')
    ensures Outside(g, a, c, ch')
  {
    hide Geometry.InFat, InCluster;
    forall x | 0 <= x < |a| && !g.InFat(x) && !InChain(g, ch', x)
      ensures c[x] == a[x]
    {
      InChainMono(g, ch, ch', x);
      assert b[x] == a[x];
    }
  }

  lemma InChainMono(g: Geometry, ch: seq<nat>, ch': seq<nat>, a: nat)
    requires AllClusters(g, ch) && AllClusters(g, ch') && ch <= ch'
    ensures InChain(g, ch, a) ==> InChain(g, ch', a)
  {
    if InChain(g, ch, a) {
      var i :| 0 <= i < |ch| && InCluster(g, ch[i], a);
      assert InCluster(g, ch'[i], a);
    }
  }

  /** A cluster of one chain shares no byte with a sector of another, disjoint chain. */
  lemma SectorNotInCluster(g: Geometry, ch: seq<nat>, k: nat, n: nat, a: nat)
    requires g.sectorsPerCluster >= 1 && AllClusters(g, ch) && n >= 2 && n !in ch
    requires k < |ch| * g.sectorsPerCluster
    requires SECTOR * ChainSectors(g, ch)[k] <= a < SECTOR * (ChainSectors(g, ch)[k] + 1)
    ensures !InCluster(g, n, a)
  {
    hide ChainSectors, Geometry.FirstSector;
    var i, r := SectorPlace(g, ch, k);
    if InCluster(g, n, a) {
      var s := a / SECTOR;
      assert s == ChainSectors(g, ch)[k];
      ClustersDisjoint(g, ch[i], n, r, s - g.FirstSector(n));
    }
  }

  /** Two images that agree off the tables and off some clusters agree on a file elsewhere. */
  lemma ContentElsewhere(g: Geometry, img: seq<byte>, img': seq<byte>, ch: seq<nat>, f: seq<nat>)
    requires g.Valid(|img|) && g.sectorsPerCluster >= 1
    requires AllClusters(g, ch) && AllClusters(g, f) && Outside(g, img, img', ch)
    requires forall c :: c in f ==> c !in ch
    ensures OnDevice(ChainSectors(g, f), |img|)
    ensures Content(img', ChainSectors(g, f)) == Content(img, ChainSectors(g, f))
  {
    hide Geometry.Valid, ChainSectors, Geometry.FatEnd;
    ChainOnDevice(g, |img|, f);
    DeviceHoldsFats(g, |img|);
    var secs := ChainSectors(g, f);
    forall p | 0 <= p < SECTOR * |secs|
      ensures Content(img', secs)[p] == Content(img, secs)[p]
    {
      var k := p / SECTOR;
      var a := SECTOR * secs[k] + p % SECTOR;
      forall i | 0 <= i < |ch|
        ensures !InCluster(g, ch[i], a)
      {
        assert ch[i] in ch;
        SectorNotInCluster(g, f, k, ch[i], a);
      }
      assert img'[a] == img[a];
    }
  }

  /** The contents of a chain are a prefix of the contents of any longer one. */
  lemma ContentPrefix(g: Geometry, img: seq<byte>, ch: seq<nat>, n: nat)
    requires g.Valid(|img|) && g.sectorsPerCluster >= 1 && AllClusters(g, ch + [n]) && AllClusters(g, ch)
    ensures OnDevice(ChainSectors(g, ch), |img|) && OnDevice(ChainSectors(g, ch + [n]), |img|)
    ensures |Content(img, ChainSectors(g, ch + [n]))| == |Content(img, ChainSectors(g, ch))| + SECTOR * g.sectorsPerCluster
    ensures Content(img, ChainSectors(g, ch + [n]))[..|Content(img, ChainSectors(g, ch))|]
      == Content(img, ChainSectors(g, ch))
  {
    hide Geometry.Valid, ChainSectors, Geometry.FirstSector;
    ChainOnDevice(g, |img|, ch);
    ChainOnDevice(g, |img|, ch + [n]);
    MulSucc(|ch|, g.sectorsPerCluster);
    forall k | 0 <= k < |ch| * g.sectorsPerCluster
      ensures ChainSectors(g, ch)[k] == ChainSectors(g, ch + [n])[k]
    {
      var i, r := SectorPlace(g, ch, k);
      var j, s := SectorPlace(g, ch + [n], k);
    }
  }

  /** The new cluster's part of the contents. */
  lemma NewClusterContent(g: Geometry, img: seq<byte>, ch: seq<nat>, n: nat)
    requires g.Valid(|img|) && g.sectorsPerCluster >= 1 && AllClusters(g, ch + [n]) && AllClusters(g, ch)
    requires OnDevice(ChainSectors(g, ch + [n]), |img|) && OnDevice(ChainSectors(g, ch), |img|)
    requires n >= 2 && forall a :: 0 <= a < |img| && InCluster(g, n, a) ==> img[a] == 0
    ensures forall p :: |Content(img, ChainSectors(g, ch))| <= p < |Content(img, ChainSectors(g, ch + [n]))| ==>
      Content(img, ChainSectors(g, ch + [n]))[p] == 0
  {
    hide Geometry.Valid, ChainSectors, Geometry.FirstSector;
    var secs := ChainSectors(g, ch + [n]);
    var low := |ch| * g.sectorsPerCluster;
    forall p | SECTOR * low <= p < SECTOR * |secs|
      ensures Content(img, secs)[p] == 0
    {
      var k := p / SECTOR;
      var i, r := SectorPlace(g, ch + [n], k);
      if i < |ch| {
        MulMono(i + 1, |ch|, g.sectorsPerCluster);
        MulSucc(i, g.sectorsPerCluster);
      }
      assert InCluster(g, n, SECTOR * secs[k] + p % SECTOR);
    }
  }

  /** The table after fat_alloc_next_cluster has hung `n` behind the last cluster of `ch`. */
  ghost predicate Appended(g: Geometry, img: seq<byte>, img': seq<byte>, ch: seq<nat>, n: nat, clear: bool)
    requires g.Valid(|img|) && |ch| >= 1
  {
    && |img'| == |img| && g.IsCluster(n) && n < g.clusterCount && ch[|ch| - 1] < g.Entries()
    && Table(img, g)[n] == 0
    && Table(img', g) == Table(img, g)[n := g.Eoc()][ch[|ch| - 1] := n]
    && (if clear then ClearedOutsideFat(img, img', g, n) else SameOutsideFat(img, img', g))
  }

  /** Growing a file by one cluster. */
  lemma GrowStep(g: Geometry, img: seq<byte>, img': seq<byte>, ch: seq<nat>, n: nat, clear: bool)
    requires g.Valid(|img|) && IsChain(Table(img, g), g.Eoc(), ch) && Appended(g, img, img', ch, n, clear)
    requires g.sectorsPerCluster >= 1 && AllClusters(g, ch)
    ensures n !in ch && AllClusters(g, ch + [n])
    ensures IsChain(Table(img', g), g.Eoc(), ch + [n])
    ensures Outside(g, img, img', ch + [n])
    ensures var secs, secs' := ChainSectors(g, ch), ChainSectors(g, ch + [n]);
      && OnDevice(secs, |img|) && OnDevice(secs', |img|)
      && |Content(img, secs)| <= |Content(img', secs')|
      && Content(img', secs')[..|Content(img, secs)|] == Content(img, secs)
      && (clear ==> forall p :: |Content(img, secs)| <= p < |Content(img', secs')| ==> Content(img', secs')[p] == 0)
  {
    hide Geometry.Valid, ChainSectors, Table, Content;
    Forest.ChainGrown(Table(img, g), g.Eoc(), ch, n);
    GrowOutside(g, img, img', ch, n, clear);
    ContentPrefix(g, img', ch, n);
    ContentElsewhere(g, img, img', [n], ch);
    if clear {
      NewClusterZero(g, img, img', n);
      NewClusterContent(g, img', ch, n);
    }
  }

  lemma NewClusterZero(g: Geometry, img: seq<byte>, img': seq<byte>, n: nat)
    requires g.Valid(|img|) && g.IsCluster(n) && ClearedOutsideFat(img, img', g, n)
    ensures forall a :: 0 <= a < |img| && InCluster(g, n, a) ==> img'[a] == 0
  {
    hide Geometry.Valid, Geometry.FirstSector, Geometry.FatEnd;
    ClusterBounds(g, |img|, n);
  }

  lemma GrowOutside(g: Geometry, img: seq<byte>, img': seq<byte>, ch: seq<nat>, n: nat, clear: bool)
    requires AllClusters(g, ch) && g.IsCluster(n)
    requires if clear then ClearedOutsideFat(img, img', g, n) else SameOutsideFat(img, img', g)
    ensures Outside(g, img, img', ch + [n]) && Outside(g, img, img', [n])
  {
    hide Geometry.InFat, InCluster;
    forall a | 0 <= a < |img| && !g.InFat(a) && img'[a] != img[a]
      ensures InChain(g, [n], a) && InChain(g, ch + [n], a)
    {
      assert InCluster(g, [n][0], a);
      assert InCluster(g, (ch + [n])[|ch|], a);
    }
  }
}
