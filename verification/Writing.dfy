/** The effect of a write on file contents, tables and everything else, as a relation on images. */
module Writing {
  import opened Arithmetic
  import opened Bytes
  import opened Geometry
  import opened FatTable
  import opened Chains
  import opened ChainOps
  import opened Extents
  import opened Growth
  import opened Layouts
  import Forest

  /** Every byte outside the file and the tables is kept, and the tables change only for the file. */
  ghost predicate Frame(g: Geometry, img: seq<byte>, lay: Layout, img': seq<byte>, lay': Layout)
    requires Laid(g, img, lay) && Laid(g, img', lay') && |img'| == |img|
  {
    && (Mirrored(img, g) ==> Mirrored(img', g))
    && match (lay, lay')
       case (Chained(ch), Chained(ch')) =>
         && ch <= ch' && Outside(g, img, img', ch')
         && (forall j :: |ch| <= j < |ch'| ==> ch'[j] < g.clusterCount && Table(img, g)[ch'[j]] == 0)
         && (forall c :: 0 <= c < g.Entries() && c !in ch' ==> Table(img', g)[c] == Table(img, g)[c])
       case (RootDir(first, count), RootDir(_, _)) =>
         && lay' == lay && Table(img', g) == Table(img, g)
         && forall a {:trigger img'[a]} :: 0 <= a < |img| && !(SECTOR * first <= a < SECTOR * (first + count)) ==>
              img'[a] == img[a]
       case _ => false
  }

  /** `d` has been written at `pos` of the file that was laid out as `lay` on `img`. */
  ghost predicate Written(g: Geometry, img: seq<byte>, lay: Layout, img': seq<byte>, lay': Layout,
      pos: nat, d: seq<byte>, clear: bool)
    requires Laid(g, img, lay)
  {
    && |img'| == |img| && Laid(g, img', lay')
    && Overwritten(Data(g, img, lay), Data(g, img', lay'), pos, d, clear)
    && Frame(g, img, lay, img', lay')
  }

  /** The clusters a search can still find. */
  ghost function Free(g: Geometry, img: seq<byte>): nat
    requires g.Valid(|img|)
  {
    |FreeSet(Table(img, g), g.clusterCount)|
  }

  /** The number of the cluster a byte of a chained file lies in. */
  function Index(g: Geometry, pos: nat): nat
    requires g.sectorsPerCluster >= 1
  {
    pos / SECTOR / g.sectorsPerCluster
  }

  /** The clusters that writing `len` bytes at `pos` adds to the file: its end must be inside the
      chain, one past the last byte included. */
  function Needed(g: Geometry, lay: Layout, pos: nat, len: nat): nat
    requires g.sectorsPerCluster >= 1
  {
    if len == 0 || lay.RootDir? || Index(g, pos + len) < |lay.ch| then 0 else Index(g, pos + len) + 1 - |lay.ch|
  }

  /**
   * The outcome of writing `d` at `pos`: its first `n` bytes are in place.  When enough clusters
   * are free that is all of them, as far as the fixed root directory reaches, and the chain grows
   * by what is needed.  Otherwise the chain takes every cluster there is and is written to its end.
   */
  ghost predicate Stored(g: Geometry, img: seq<byte>, lay: Layout, img': seq<byte>, lay': Layout,
      pos: nat, d: seq<byte>, n: nat, full: bool, clear: bool)
  {
    && n <= |d| && Laid(g, img, lay) && Written(g, img, lay, img', lay', pos, d[..n], clear)
    && (full <==> Free(g, img) < Needed(g, lay, pos, |d|))
    && (lay.Chained? ==> lay'.Chained? && |lay'.ch| == |lay.ch| + if full then Free(g, img) else Needed(g, lay, pos, |d|))
    && pos + n == if full || (lay.RootDir? && pos + |d| > Total(g, lay)) then Total(g, lay') else pos + |d|
  }

  /** The file is still there, byte for byte. */
  ghost predicate SameFile(g: Geometry, img: seq<byte>, img': seq<byte>, lay: Layout) {
    |img'| == |img| && Laid(g, img, lay) && Laid(g, img', lay) && Data(g, img', lay) == Data(g, img, lay)
  }

  lemma WrittenNothing(g: Geometry, img: seq<byte>, lay: Layout, pos: nat, clear: bool)
    requires Laid(g, img, lay) && pos <= Total(g, lay)
    ensures Written(g, img, lay, img, lay, pos, [], clear)
  {
    hide Table, Data, Laid;
    LaidUsable(g, img, lay);
  }

  lemma WrittenLaid(g: Geometry, img: seq<byte>, lay: Layout, img': seq<byte>, lay': Layout, pos: nat, d: seq<byte>, clear: bool)
    requires Laid(g, img, lay) && Written(g, img, lay, img', lay', pos, d, clear)
    ensures |img'| == |img| && Laid(g, img', lay')
  {
  }

  /** A chunk stored in the sector under the position extends what has been written. */
  lemma WrittenPatch(g: Geometry, img0: seq<byte>, lay0: Layout, img: seq<byte>, lay: Layout, pos: nat, d: seq<byte>,
      clear: bool, k: nat, off: nat, e: seq<byte>)
    requires Laid(g, img0, lay0) && Written(g, img0, lay0, img, lay, pos, d, clear)
    requires Usable(g, lay) && k < |Secs(g, lay)| && off + |e| <= SECTOR && pos + |d| == SECTOR * k + off
    ensures SECTOR * Secs(g, lay)[k] + off + |e| <= |img|
    ensures Written(g, img0, lay0, Splice(img, SECTOR * Secs(g, lay)[k] + off, e), lay, pos, d + e, clear)
  {
    hide Geometry.Valid, Table, Mirrored, Content, IsChain, ChainSectors, Overwritten;
    LaidGood(g, img, lay);
    var s := Secs(g, lay)[k];
    var img' := Splice(img, SECTOR * s + off, e);
    DataWriteKeepsFat(g, img, SECTOR * s + off, e);
    ContentPatched(img, Secs(g, lay), k, off, e);
    OverwrittenPatch(Data(g, img0, lay0), Data(g, img, lay), pos, d, e, clear);
    PatchFrame(g, img, lay, k, off, e);
    FrameTrans(g, img0, lay0, img, lay, img', lay);
  }

  lemma PatchFrame(g: Geometry, img: seq<byte>, lay: Layout, k: nat, off: nat, e: seq<byte>)
    requires Laid(g, img, lay) && k < |Secs(g, lay)| && off + |e| <= SECTOR
    ensures SECTOR * Secs(g, lay)[k] + off + |e| <= |img|
    ensures var img' := Splice(img, SECTOR * Secs(g, lay)[k] + off, e);
      Laid(g, img', lay) && Frame(g, img, lay, img', lay)
  {
    hide Geometry.Valid, Table, Mirrored, IsChain, ChainSectors;
    LaidGood(g, img, lay);
    DataWriteKeepsFat(g, img, SECTOR * Secs(g, lay)[k] + off, e);
    if lay.Chained? {
      OutsidePatch(g, img, lay.ch, k, off, e);
    }
  }

  lemma FrameTrans(g: Geometry, a: seq<byte>, la: Layout, b: seq<byte>, lb: Layout, c: seq<byte>, lc: Layout)
    requires Laid(g, a, la) && Laid(g, b, lb) && Laid(g, c, lc) && |a| == |b| == |c|
    requires Frame(g, a, la, b, lb) && Frame(g, b, lb, c, lc)
    ensures Frame(g, a, la, c, lc)
  {
    hide Geometry.Valid, Table, Mirrored, Outside;
    if la.Chained? {
      OutsideTrans(g, a, b, c, lb.ch, lc.ch);
      forall j | |la.ch| <= j < |lc.ch|
        ensures lc.ch[j] < g.clusterCount && Table(a, g)[lc.ch[j]] == 0
      {
        if j < |lb.ch| {
          assert lc.ch[j] == lb.ch[j];
        } else {
          assert Table(b, g)[lc.ch[j]] == 0;
          if lc.ch[j] in lb.ch { ChainInUse(Table(b, g), g.Eoc(), lb.ch, lc.ch[j]); }
        }
      }
    }
  }

  /** Hanging a free cluster behind the file keeps what has been written. */
  lemma WrittenGrow(g: Geometry, img0: seq<byte>, lay0: Layout, img: seq<byte>, ch: seq<nat>, pos: nat, d: seq<byte>,
      clear: bool, img': seq<byte>, n: nat)
    requires Laid(g, img0, lay0) && Written(g, img0, lay0, img, Chained(ch), pos, d, clear)
    requires ch != [] && Appended(g, img, img', ch, n, clear) && (Mirrored(img, g) ==> Mirrored(img', g))
    ensures n !in ch && Written(g, img0, lay0, img', Chained(ch + [n]), pos, d, clear)
  {
    hide Geometry.Valid, Table, Mirrored, Content, ChainSectors, Overwritten;
    GrowStep(g, img, img', ch, n, clear);
    GrowFrame(g, img, img', ch, n, clear);
    OverwrittenGrow(Data(g, img0, lay0), Data(g, img, Chained(ch)), Data(g, img', Chained(ch + [n])), pos, d, clear);
    FrameTrans(g, img0, lay0, img, Chained(ch), img', Chained(ch + [n]));
  }

  lemma GrowFrame(g: Geometry, img: seq<byte>, img': seq<byte>, ch: seq<nat>, n: nat, clear: bool)
    requires Laid(g, img, Chained(ch)) && ch != [] && Appended(g, img, img', ch, n, clear)
    requires Mirrored(img, g) ==> Mirrored(img', g)
    ensures Laid(g, img', Chained(ch + [n])) && Frame(g, img, Chained(ch), img', Chained(ch + [n]))
  {
    hide Geometry.Valid, Table, Mirrored;
    GrowStep(g, img, img', ch, n, clear);
    ValidBound(g, |img|);
  }

  lemma ValidBound(g: Geometry, len: nat)
    requires g.Valid(len)
    ensures g.Entries() <= g.Eoc()
  {
  }

  /** The first cluster of an empty file. */
  lemma FirstCluster(g: Geometry, img: seq<byte>, img': seq<byte>, n: nat)
    requires Laid(g, img, Chained([])) && g.IsCluster(n) && n < g.clusterCount && Table(img, g)[n] == 0
    requires |img'| == |img| && Table(img', g) == Table(img, g)[n := g.Eoc()] && SameOutsideFat(img, img', g)
    requires Mirrored(img, g) ==> Mirrored(img', g)
    ensures Laid(g, img', Chained([n])) && Frame(g, img, Chained([]), img', Chained([n]))
  {
    hide Geometry.Valid, Table, Mirrored;
    ValidBound(g, |img|);
  }

  /** A write into an empty file is the write into its first cluster. */
  lemma WrittenFromEmpty(g: Geometry, img: seq<byte>, img1: seq<byte>, n: nat, img2: seq<byte>, lay: Layout,
      d: seq<byte>, clear: bool)
    requires Laid(g, img, Chained([])) && |img1| == |img|
    requires Laid(g, img1, Chained([n])) && Frame(g, img, Chained([]), img1, Chained([n]))
    requires Written(g, img1, Chained([n]), img2, lay, 0, d, clear)
    ensures Written(g, img, Chained([]), img2, lay, 0, d, false)
  {
    hide Geometry.Valid, Table, Mirrored, Content, ChainSectors;
    FrameTrans(g, img, Chained([]), img1, Chained([n]), img2, lay);
  }

  /**
   * Other files: a chain that shares no cluster with the written file keeps its links and every
   * byte of its contents.
   */
  lemma OthersKept(g: Geometry, img: seq<byte>, lay: Layout, img': seq<byte>, lay': Layout, f: seq<nat>)
    requires Laid(g, img, lay) && Laid(g, img', lay') && |img'| == |img| && Frame(g, img, lay, img', lay')
    requires Laid(g, img, Chained(f))
    requires lay.Chained? ==> forall c :: c in f ==> c !in lay.ch
    ensures Laid(g, img', Chained(f)) && Data(g, img', Chained(f)) == Data(g, img, Chained(f))
    ensures lay'.Chained? ==> forall c :: c in f ==> c !in lay'.ch
  {
    hide Geometry.Valid, Table, Mirrored, Content, ChainSectors, Outside;
    match lay
    case Chained(ch) =>
      forall c | c in f ensures c !in lay'.ch {
        ChainInUse(Table(img, g), g.Eoc(), f, c);
        PrefixOrNew(ch, lay'.ch, c);
      }
      if f != [] { Forest.ChainUntouched(Table(img, g), Table(img', g), g.Eoc(), f); }
      ContentElsewhere(g, img, img', lay'.ch, f);
    case RootDir(first, count) =>
      ContentOffRoot(g, img, img', first, count, f);
  }

  lemma PrefixOrNew(ch: seq<nat>, ch': seq<nat>, c: nat)
    requires ch <= ch'
    ensures c in ch' ==> c in ch || exists j :: |ch| <= j < |ch'| && ch'[j] == c
  {
    if c in ch' {
      var j :| 0 <= j < |ch'| && ch'[j] == c;
      assert j < |ch| ==> ch[j] == ch'[j];
    }
  }

  lemma ContentOffRoot(g: Geometry, img: seq<byte>, img': seq<byte>, first: nat, count: nat, f: seq<nat>)
    requires g.Valid(|img|) && g.sectorsPerCluster >= 1 && AllClusters(g, f) && |img'| == |img|
    requires first + count <= g.firstData
    requires forall a {:trigger img'[a]} :: 0 <= a < |img| && !(SECTOR * first <= a < SECTOR * (first + count)) ==>
        img'[a] == img[a]
    ensures OnDevice(ChainSectors(g, f), |img|)
    ensures Content(img', ChainSectors(g, f)) == Content(img, ChainSectors(g, f))
  {
    hide Geometry.Valid, ChainSectors;
    ChainOnDevice(g, |img|, f);
  }

  /** Changing bytes of a sector that is in no table and in no cluster of a file keeps the file. */
  lemma OtherSectorKept(g: Geometry, img: seq<byte>, img': seq<byte>, ch: seq<nat>, s: nat)
    requires Laid(g, img, Chained(ch)) && |img'| == |img| && g.FatEnd() <= s
    requires forall i {:trigger img'[i]} :: 0 <= i < |img| && !(SECTOR * s <= i < SECTOR * (s + 1)) ==> img'[i] == img[i]
    requires forall c: nat :: c in ch ==> c >= 2 && !InCluster(g, c, SECTOR * s)
    ensures Laid(g, img', Chained(ch)) && Data(g, img', Chained(ch)) == Data(g, img, Chained(ch))
    ensures Table(img', g) == Table(img, g) && (Mirrored(img, g) ==> Mirrored(img', g))
  {
    hide Geometry.Valid, Table, Mirrored, ChainSectors, InCluster, Geometry.FatEnd;
    SameFat(img, img', g);
    LaidGood(g, img, Chained(ch));
    var secs := ChainSectors(g, ch);
    forall k | 0 <= k < |secs|
      ensures secs[k] != s
    {
      var i, r := SectorPlace(g, ch, k);
      FirstByteInCluster(g, ch[i], r);
      assert ch[i] in ch;
    }
  }

  lemma FirstByteInCluster(g: Geometry, c: nat, r: nat)
    requires c >= 2 && r < g.sectorsPerCluster
    ensures InCluster(g, c, SECTOR * (g.FirstSector(c) + r))
  {
    hide Geometry.FirstSector;
  }

  // ---- Counting free clusters --------------------------------------------------------------

  /** A file grows by clusters that were free, and no other entry is freed or taken. */
  lemma FrameCount(g: Geometry, img: seq<byte>, ch: seq<nat>, img': seq<byte>, ch': seq<nat>)
    requires Laid(g, img, Chained(ch)) && Laid(g, img', Chained(ch')) && |img'| == |img|
    requires Frame(g, img, Chained(ch), img', Chained(ch'))
    ensures |ch| <= |ch'| && Free(g, img') + (|ch'| - |ch|) == Free(g, img)
  {
    hide Geometry.Valid, Table, Outside, Mirrored;
    var t, t', more := Table(img, g), Table(img', g), ch'[|ch|..];
    var f, f' := FreeSet(t, g.clusterCount), FreeSet(t', g.clusterCount);
    if ch' != [] {
      ChainDistinct(t', g.Eoc(), ch');
    }
    DistinctSize(more);
    forall x: nat
      ensures x in f' <==> x in f && x !in Elements(more)
    {
      FreeTaken(g, img, ch, img', ch', x);
    }
    assert Elements(more) <= f by {
      forall x | x in Elements(more) ensures x in f {
        var j :| 0 <= j < |more| && more[j] == x;
        assert ch'[|ch| + j] == x;
      }
    }
    assert f' == f - Elements(more);
  }

  lemma FreeTaken(g: Geometry, img: seq<byte>, ch: seq<nat>, img': seq<byte>, ch': seq<nat>, x: nat)
    requires Laid(g, img, Chained(ch)) && Laid(g, img', Chained(ch')) && |img'| == |img|
    requires Frame(g, img, Chained(ch), img', Chained(ch')) && |ch| <= |ch'|
    ensures x in FreeSet(Table(img', g), g.clusterCount) <==> x in FreeSet(Table(img, g), g.clusterCount) && x !in ch'[|ch|..]
  {
    hide Geometry.Valid, Table, Outside, Mirrored;
    var t, t', more := Table(img, g), Table(img', g), ch'[|ch|..];
    if x in ch' {
      ChainInUse(t', g.Eoc(), ch', x);
      PrefixOrNew(ch, ch', x);
      if x in ch { ChainInUse(t, g.Eoc(), ch, x); }
      assert x in ch || x in more;
    } else {
      assert x !in more;
    }
  }

  lemma NoneFreeCount(t: seq<nat>, count: nat)
    requires count <= |t|
    ensures |FreeSet(t, count)| == 0 <==> FreeSet(t, count) == {}
    ensures FreeSet(t, count) == {} <==> forall i :: 2 <= i < count ==> t[i] != 0
  {
    if forall i :: 2 <= i < count ==> t[i] != 0 {
      assert FreeSet(t, count) == {};
    } else {
      var i: nat :| 2 <= i < count && t[i] == 0;
      assert i in FreeSet(t, count);
    }
  }

  lemma IndexMono(g: Geometry, a: nat, b: nat)
    requires g.sectorsPerCluster >= 1 && a <= b
    ensures Index(g, a) <= Index(g, b)
  {
    var spc, x, y := g.sectorsPerCluster, a / SECTOR, b / SECTOR;
    assert x <= y;
    assert x == x / spc * spc + x % spc && y == y / spc * spc + y % spc;
    MulSucc(y / spc, spc);
    if x / spc > y / spc {
      MulMono(y / spc + 1, x / spc, spc);
    }
  }

  /** A position is inside a chain exactly when its cluster is; at the very end it is one past. */
  lemma IndexInside(g: Geometry, ch: seq<nat>, pos: nat)
    requires Usable(g, Chained(ch))
    ensures pos < Total(g, Chained(ch)) <==> Index(g, pos) < |ch|
    ensures pos == Total(g, Chained(ch)) ==> Index(g, pos) == |ch|
  {
    InsideChain(|ch|, g.sectorsPerCluster, pos / SECTOR);
    if pos == Total(g, Chained(ch)) {
      DivExact(|ch|, 0, g.sectorsPerCluster);
    }
  }

  /** What a run of the loop of fat_write amounts to: it grew the chain only at its end, and stopped
      early only with nothing left to find. */
  lemma MakeStored(g: Geometry, img: seq<byte>, lay: Layout, img': seq<byte>, lay': Layout,
      pos: nat, d: seq<byte>, n: nat, full: bool, clear: bool)
    requires n <= |d| && Laid(g, img, lay) && Written(g, img, lay, img', lay', pos, d[..n], clear) && Laid(g, img', lay')
    requires Usable(g, lay) && Usable(g, lay') && pos <= Total(g, lay)
    requires full ==> lay'.Chained? && pos + n == Total(g, lay') && FreeSet(Table(img', g), g.clusterCount) == {} && d != []
    requires !full ==> pos + n == if lay.RootDir? && pos + |d| > Total(g, lay) then Total(g, lay') else pos + |d|
    requires !full && lay.Chained? && d != [] ==> lay'.Chained? && pos + n < Total(g, lay')
    requires !full && lay.Chained? ==> lay' == lay || (d != [] && lay'.Chained? && |lay'.ch| == Index(g, pos + n) + 1)
    ensures Stored(g, img, lay, img', lay', pos, d, n, full, clear)
  {
    hide Geometry.Valid, Table, Outside, Mirrored, FreeSet, Overwritten, Data, Total, Secs;
    match lay
    case RootDir(_, _) =>
    case Chained(ch) =>
      assert Frame(g, img, lay, img', lay') && lay'.Chained?;
      FrameCount(g, img, ch, img', lay'.ch);
      IndexInside(g, lay'.ch, pos + n);
      if full {
        assert Free(g, img') == 0;
        IndexMono(g, pos + n, pos + |d|);
      }
  }

  /** The volume runs full if and only if fewer clusters are free than needed; the file is empty
      afterwards only if it was and none was free. */
  lemma StoredIff(g: Geometry, img: seq<byte>, lay: Layout, img': seq<byte>, lay': Layout,
      pos: nat, d: seq<byte>, n: nat, full: bool, clear: bool)
    requires Stored(g, img, lay, img', lay', pos, d, n, full, clear)
    ensures full <==> Free(g, img) < Needed(g, lay, pos, |d|)
    ensures full ==> lay.Chained? && (lay' == Chained([]) <==> lay == Chained([]) && Free(g, img) == 0)
    ensures lay == Chained([]) && Free(g, img) == 0 && !full ==> lay' == lay
    ensures full || (lay.RootDir? && pos + |d| > Total(g, lay)) || n == |d|
  {
    hide Free, Written, Laid, Index;
  }

  /** Nothing stored in an empty file for want of a first cluster. */
  lemma NothingStored(g: Geometry, img: seq<byte>, d: seq<byte>)
    requires Laid(g, img, Chained([])) && FreeSet(Table(img, g), g.clusterCount) == {} && d != []
    ensures Stored(g, img, Chained([]), img, Chained([]), 0, d, 0, true, false)
    ensures SameFile(g, img, img, Chained([]))
  {
    hide Geometry.Valid, Table, Written, Laid, FreeSet;
    LaidUsable(g, img, Chained([]));
    WrittenNothing(g, img, Chained([]), 0, false);
    assert d[..0] == [];
  }

  /** A write into an empty file takes one cluster more than the write into its first cluster. */
  lemma StoredFromEmpty(g: Geometry, img: seq<byte>, img1: seq<byte>, n: nat, img2: seq<byte>, lay: Layout,
      d: seq<byte>, k: nat, full: bool, clear: bool)
    requires Laid(g, img, Chained([])) && |img1| == |img| && d != []
    requires Laid(g, img1, Chained([n])) && Frame(g, img, Chained([]), img1, Chained([n]))
    requires Stored(g, img1, Chained([n]), img2, lay, 0, d, k, full, clear)
    ensures Stored(g, img, Chained([]), img2, lay, 0, d, k, full, false)
  {
    hide Geometry.Valid, Table, Written, Laid, Frame, FreeSet, Total;
    FrameCount(g, img, [], img1, [n]);
    LaidUsable(g, img1, Chained([n]));
    WrittenFromEmpty(g, img, img1, n, img2, lay, d[..k], clear);
  }

  lemma StoredWeaker(g: Geometry, img: seq<byte>, lay: Layout, img': seq<byte>, lay': Layout,
      pos: nat, d: seq<byte>, n: nat, full: bool, clear: bool)
    requires Stored(g, img, lay, img', lay', pos, d, n, full, clear)
    ensures Stored(g, img, lay, img', lay', pos, d, n, full, clear && lay != Chained([]))
  {
    hide Geometry.Valid, Table, Laid, Frame, Data;
  }

  /** Sector `s` is in no cluster of the file and in no free one. */
  ghost predicate Avoids(g: Geometry, img: seq<byte>, ch: seq<nat>, s: nat)
    requires g.Valid(|img|)
  {
    forall c: nat :: g.IsCluster(c) && (c in ch || Table(img, g)[c] == 0) ==> !InCluster(g, c, SECTOR * s)
  }

  /** Files only grow. */
  lemma StoredExtends(g: Geometry, img: seq<byte>, lay: Layout, img': seq<byte>, lay': Layout,
      pos: nat, d: seq<byte>, n: nat, full: bool, clear: bool)
    requires Stored(g, img, lay, img', lay', pos, d, n, full, clear)
    ensures Usable(g, lay) && Usable(g, lay') && Total(g, lay) <= Total(g, lay') && |img'| == |img|
    ensures Laid(g, img, lay) && Laid(g, img', lay')
    ensures match lay
      case Chained(ch) => lay'.Chained? && ch <= lay'.ch
      case RootDir(_, _) => lay' == lay
  {
    hide Geometry.Valid, Table, Outside, Content, Mirrored;
  }

  /** They grow into free clusters, so they stay off any sector that lay in none. */
  lemma StoredAvoids(g: Geometry, img: seq<byte>, lay: Layout, img': seq<byte>, lay': Layout,
      pos: nat, d: seq<byte>, n: nat, full: bool, clear: bool, s: nat)
    requires Stored(g, img, lay, img', lay', pos, d, n, full, clear) && lay.Chained?
    requires g.Valid(|img|) && Avoids(g, img, lay.ch, s)
    ensures lay'.Chained? && forall c: nat :: c in lay'.ch ==> c >= 2 && !InCluster(g, c, SECTOR * s)
  {
    hide Geometry.Valid, Table, Outside, Content, Mirrored, InCluster, Overwritten;
    forall c: nat | c in lay'.ch
      ensures c >= 2 && !InCluster(g, c, SECTOR * s)
    {
      assert g.IsCluster(c);
      PrefixOrNew(lay.ch, lay'.ch, c);
    }
  }

  /** What has been stored is found in the file's contents, in place. */
  lemma ReadBack(g: Geometry, img: seq<byte>, lay: Layout, img': seq<byte>, lay': Layout,
      pos: nat, d: seq<byte>, n: nat, full: bool, clear: bool)
    requires Stored(g, img, lay, img', lay', pos, d, n, full, clear)
    ensures Laid(g, img', lay') && n <= |d| && pos + n <= Total(g, lay') < U32
    ensures Data(g, img', lay')[pos..pos + n] == d[..n]
  {
    hide Geometry.Valid, Table, Outside, Content, Mirrored, Frame;
    LaidSize(g, img', lay');
  }
}
