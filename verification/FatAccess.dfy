/** Table access through the sector cache (fat_core.c, write.c). */
module FatAccess {
  import opened Arithmetic
  import opened Bytes
  import opened Geometry
  import opened Cache
  import opened FatTable

  /**
   * What table access needs of the cache.  The path that clears a new cluster zeroes the buffer
   * under an old tag; that is harmless as long as the tag names a copy of the table other than
   * the first, which is written, but never looked up, before it is reloaded.
   */
  ghost predicate Sound(m: SectorCache, g: Geometry)
    reads m, m.buf
  {
    && m.Shape() && g.Valid(|m.dev|)
    && (m.Coherent() || (!m.dirty && InCopies(m.sector, g, 1)))
  }

  /** Sector `s` lies in copy `k` of the table or in a later one. */
  predicate InCopies(s: nat, g: Geometry, k: nat) { g.reserved + k * g.fatSize <= s < g.FatEnd() }

  function EntrySector(g: Geometry, k: nat, c: nat): nat {
    g.reserved + k * g.fatSize + g.EntryOff(c) / SECTOR
  }

  /** An entry lies in its sector, or straddles it and the next one, of the same copy. */
  lemma EntrySectorBounds(g: Geometry, len: nat, k: nat, c: nat)
    requires g.Valid(len) && c < g.Entries() && k < g.numFats
    ensures var s, o := EntrySector(g, k, c), g.EntryOff(c) % SECTOR;
      && SECTOR * s + o == g.EntryAddr(k, c)
      && SECTOR * (s + 1) <= len && InCopies(s, g, k) && g.FatEnd() <= g.firstData
      && (k == 0 ==> s < g.reserved + g.fatSize)
      && (if o + g.kind.Width() <= SECTOR then true else
            && g.kind == Fat12 && o == SECTOR - 1 && SECTOR * (s + 2) <= len && InCopies(s + 1, g, k)
            && (k == 0 ==> s + 1 < g.reserved + g.fatSize))
  {
    EntryEnd(g, c);
    CopySpan(g, len, k, c);
    hide Geometry.Valid, Geometry.EntryOff;
    PlaceInCopy(g.reserved, k * g.fatSize, g.fatSize, g.numFats * g.fatSize, g.firstData, len, g.EntryOff(c), g.kind.Width());
  }

  lemma CopySpan(g: Geometry, len: nat, k: nat, c: nat)
    requires g.Valid(len) && c < g.Entries() && k < g.numFats
    ensures k * g.fatSize + g.fatSize <= g.numFats * g.fatSize && g.reserved + g.numFats * g.fatSize <= g.firstData && SECTOR * g.firstData <= len
    ensures g.EntryOff(c) + g.kind.Width() <= SECTOR * g.fatSize && (k == 0 ==> k * g.fatSize == 0)
  {
    DeviceHoldsFats(g, len);
    MulMono(k + 1, g.numFats, g.fatSize);
    MulSucc(k, g.fatSize);
  }

  /** An entry that runs over its sector is a 12-bit one in the last byte. */
  lemma EntryEnd(g: Geometry, c: nat)
    ensures g.EntryOff(c) % SECTOR + g.kind.Width() > SECTOR ==> g.kind == Fat12 && g.EntryOff(c) % SECTOR == SECTOR - 1
  {
  }

  /** The place `off` of a copy that starts `base` sectors into the table area of `total` sectors. */
  lemma PlaceInCopy(reserved: nat, base: nat, size: nat, total: nat, data: nat, len: nat, off: nat, w: nat)
    requires base + size <= total && reserved + total <= data && SECTOR * data <= len
    requires off + w <= SECTOR * size && 1 <= w <= 4
    ensures var s := reserved + base + off / SECTOR;
      && SECTOR * s + off % SECTOR == SECTOR * (reserved + base) + off
      && SECTOR * (s + 1) <= len && reserved + base <= s < reserved + base + size
      && (off % SECTOR + w > SECTOR ==> SECTOR * (s + 2) <= len && s + 1 < reserved + base + size)
  {
  }

  /** The entry runs over the end of its sector; only 12-bit entries do. */
  predicate Straddles(g: Geometry, c: nat) { g.EntryOff(c) % SECTOR + g.kind.Width() > SECTOR }

  /** The last sector an update of entry `c` in copy `k` touches. */
  function LastSector(g: Geometry, k: nat, c: nat): nat {
    EntrySector(g, k, c) + if Straddles(g, c) then 1 else 0
  }

  /** What the lookup makes of the two buffers it goes through. */
  function EntryIn(g: Geometry, c: nat, w: seq<byte>, v: seq<byte>): (r: nat)
    requires |w| == |v| == SECTOR
  {
    var o := g.EntryOff(c) % SECTOR;
    match g.kind
    case Fat12 => Take12(c % 2 == 1, if o == SECTOR - 1 then w[o] as int + 0x100 * (v[0] as int) else Get16(w, o))
    case Fat16 => Get16(w, o)
    case Fat32 => Get32(w, o) % 0x1000_0000
  }

  /** What the lookup of `c` returns, whatever the cache holds: the second sector is always loaded. */
  ghost function Looked(m: SectorCache, g: Geometry, c: nat): nat
    requires m.Shape() && g.Valid(|m.dev|) && c < g.Entries()
    reads m, m.buf
  {
    EntryInCopy(g, |m.dev|, 0);
    EntrySectorBounds(g, |m.dev|, 0, c);
    var s := EntrySector(g, 0, c);
    EntryIn(g, c, m.Fetched(s), if Straddles(g, c) then Sector(m.Img(), s + 1) else Sector(m.Img(), s))
  }

  /** A lookup that meets no stale tag returns the array's element. */
  lemma LookedRight(m: SectorCache, g: Geometry, c: nat)
    requires m.Shape() && g.Valid(|m.dev|) && c < g.Entries() && m.FreshFor(EntrySector(g, 0, c))
    ensures Looked(m, g, c) == Table(m.Img(), g)[c]
  {
    EntryInCopy(g, |m.dev|, 0);
    EntrySectorBounds(g, |m.dev|, 0, c);
    hide Geometry.Valid, Geometry.FatBase, Geometry.EntryOff, Geometry.FatEnd, Get16, Get32, Splice;
    var s, o := EntrySector(g, 0, c), g.EntryOff(c) % SECTOR;
    BufferedLoads(m.Img(), s, o);
    if Straddles(g, c) {
      BufferedLoads(m.Img(), s + 1, 0);
    }
  }

  lemma SoundFresh(m: SectorCache, g: Geometry, c: nat)
    requires Sound(m, g) && c < g.Entries()
    ensures m.FreshFor(EntrySector(g, 0, c))
  {
    EntryInCopy(g, |m.dev|, 0);
    EntrySectorBounds(g, |m.dev|, 0, c);
  }

  lemma LastInCopy(g: Geometry, len: nat, k: nat, c: nat)
    requires g.Valid(len) && c < g.Entries() && k < g.numFats
    ensures InCopies(LastSector(g, k, c), g, k)
  {
    EntrySectorBounds(g, len, k, c);
  }

  // _fat_get_next_cluster
  method GetNextCluster(m: SectorCache, g: Geometry, cluster: nat) returns (next: nat)
    requires m.Shape() && g.Valid(|m.dev|) && cluster < g.Entries()
    modifies m, m.buf
    ensures m.Shape() && m.Img() == old(m.Img()) && next == old(Looked(m, g, cluster))
    ensures old(Sound(m, g) || m.FreshFor(EntrySector(g, 0, cluster))) ==> m.Coherent() && next == Table(m.Img(), g)[cluster]
  {
    var offset := g.EntryOff(cluster);
    var sector := g.reserved + offset / SECTOR;
    offset := offset % SECTOR;
    ghost var w, v := LookedParts(m, g, cluster);
    hide Geometry.Valid, Geometry.EntryOff, Geometry.FatEnd, Get16, Get32, Splice, Table, Sound, Looked, Straddles, EntrySector;
    m.Get(sector);
    if g.kind == Fat12 {
      next := Word12(m, sector, offset);
      next := if cluster % 2 == 1 then next / 0x10 else next % 0x1000;
    } else if g.kind == Fat16 {
      next := Get16(m.buf[..], offset);
    } else {
      next := Get32(m.buf[..], offset) % 0x1000_0000;
    }
  }

  /** The two buffers a lookup goes through, and when their entry is the array's element. */
  lemma LookedParts(m: SectorCache, g: Geometry, c: nat) returns (w: seq<byte>, v: seq<byte>)
    requires m.Shape() && g.Valid(|m.dev|) && c < g.Entries()
    ensures var s := EntrySector(g, 0, c);
      && SECTOR * (s + 1) <= |m.dev| && w == m.Fetched(s) && |w| == |v| == SECTOR
      && (if Straddles(g, c) then SECTOR * (s + 2) <= |m.dev| && v == Sector(m.Img(), s + 1) else g.EntryOff(c) % SECTOR + g.kind.Width() <= SECTOR)
      && s == g.reserved + g.EntryOff(c) / SECTOR && (Straddles(g, c) <==> g.kind == Fat12 && g.EntryOff(c) % SECTOR == SECTOR - 1)
    ensures Looked(m, g, c) == EntryIn(g, c, w, v)
    ensures Sound(m, g) || m.FreshFor(EntrySector(g, 0, c)) ==> m.FreshFor(EntrySector(g, 0, c)) && Looked(m, g, c) == Table(m.Img(), g)[c]
  {
    EntryInCopy(g, |m.dev|, 0);
    EntrySectorBounds(g, |m.dev|, 0, c);
    var s := EntrySector(g, 0, c);
    w := m.Fetched(s);
    v := if Straddles(g, c) then Sector(m.Img(), s + 1) else Sector(m.Img(), s);
    hide Geometry.Valid, Table, Get16, Get32, Geometry.EntryOff;
    if Sound(m, g) { SoundFresh(m, g, c); }
    if m.FreshFor(s) { LookedRight(m, g, c); }
  }

  // The two bytes that hold a 12-bit entry, from one sector or from two.
  method Word12(m: SectorCache, sector: nat, offset: nat) returns (v: nat)
    requires m.Shape() && m.bound && m.sector == sector && offset < SECTOR && SECTOR * (sector + 1) <= |m.dev|
    requires offset == SECTOR - 1 ==> SECTOR * (sector + 2) <= |m.dev|
    modifies m, m.buf
    ensures m.Shape() && m.Img() == old(m.Img()) && (old(m.Coherent()) ==> m.Coherent())
    ensures v == if offset == SECTOR - 1 then old(m.buf[offset]) as int + 0x100 * (Sector(m.Img(), sector + 1)[0] as int) else old(Get16(m.buf[..], offset))
  {
    if offset == SECTOR - 1 {
      v := m.buf[offset];
      m.Get(sector + 1);
      v := v + 0x100 * (m.buf[0] as int);
    } else {
      v := Get16(m.buf[..], offset);
    }
  }

  /** Loads from the buffered sector are loads from the image. */
  lemma BufferedLoads(img: seq<byte>, s: nat, o: nat)
    requires SECTOR * (s + 1) <= |img|
    ensures o < SECTOR ==> Sector(img, s)[o] == img[SECTOR * s + o]
    ensures o + 2 <= SECTOR ==> Get16(Sector(img, s), o) == Get16(img, SECTOR * s + o)
    ensures o + 4 <= SECTOR ==> Get32(Sector(img, s), o) == Get32(img, SECTOR * s + o)
  {
  }

  /** Wider entries do not run over a sector boundary. */
  lemma WideEntry(g: Geometry, c: nat)
    requires g.kind != Fat12
    ensures !Straddles(g, c) && g.EntryOff(c) % SECTOR + g.kind.Width() <= SECTOR
  {
  }

  // fat32_set_next_cluster: the high nybble of the stored word is preserved.
  method SetNext32(m: SectorCache, g: Geometry, fat: nat, cluster: nat, next: nat)
    requires m.Shape() && HasEntry(|m.dev|, g, fat, cluster) && g.kind == Fat32 && next < g.kind.Cap()
    requires m.FreshFor(EntrySector(g, fat, cluster))
    modifies m, m.buf
    ensures m.Coherent() && m.Img() == SetEntry(old(m.Img()), g, fat, cluster, next)
    ensures m.bound && m.sector == LastSector(g, fat, cluster)
  {
    hide Geometry.Valid, Geometry.FatBase, Geometry.EntryOff, EntrySector, Get32, Le32, Put28;
    EntrySectorBounds(g, |m.dev|, fat, cluster);
    WideEntry(g, cluster);
    var sector := EntrySector(g, fat, cluster);
    var offset := g.EntryOff(cluster) % SECTOR;
    m.Load(sector);
    BufferedLoads(m.Img(), sector, offset);
    m.Patch(sector, offset, Le32(Put28(Get32(m.buf[..], offset), next % 0x1000_0000)));
  }

  // fat16_set_next_cluster
  method SetNext16(m: SectorCache, g: Geometry, fat: nat, cluster: nat, next: nat)
    requires m.Shape() && HasEntry(|m.dev|, g, fat, cluster) && g.kind == Fat16 && next < g.kind.Cap()
    requires m.FreshFor(EntrySector(g, fat, cluster))
    modifies m, m.buf
    ensures m.Coherent() && m.Img() == SetEntry(old(m.Img()), g, fat, cluster, next)
    ensures m.bound && m.sector == LastSector(g, fat, cluster)
  {
    hide Geometry.Valid, Geometry.FatBase, Geometry.EntryOff, EntrySector;
    EntrySectorBounds(g, |m.dev|, fat, cluster);
    WideEntry(g, cluster);
    m.Patch(EntrySector(g, fat, cluster), g.EntryOff(cluster) % SECTOR, Le16(next));
  }

  // fat12_set_next_cluster
  method SetNext12(m: SectorCache, g: Geometry, fat: nat, cluster: nat, next: nat)
    requires m.Shape() && HasEntry(|m.dev|, g, fat, cluster) && g.kind == Fat12 && next < g.kind.Cap()
    requires m.FreshFor(EntrySector(g, fat, cluster))
    modifies m, m.buf
    ensures m.Coherent() && m.Img() == SetEntry(old(m.Img()), g, fat, cluster, next)
    ensures m.bound && m.sector == LastSector(g, fat, cluster)
  {
    hide Geometry.Valid, Geometry.FatBase, Geometry.EntryOff, EntrySector, Get16, Put12, Le16;
    EntrySectorBounds(g, |m.dev|, fat, cluster);
    var sector := EntrySector(g, fat, cluster);
    var offset := g.EntryOff(cluster) % SECTOR;
    if offset == SECTOR - 1 {
      SetStraddling(m, g, fat, cluster, next);
    } else {
      m.Load(sector);
      BufferedLoads(m.Img(), sector, offset);
      m.Patch(sector, offset, Le16(Put12(cluster % 2 == 1, Get16(m.buf[..], offset), next)));
    }
  }

  // The branch of fat12_set_next_cluster for an entry over a sector boundary.  `& 0x0F` and
  // `& 0xF0` keep the low and the high nybble of a byte; `<<= 4` multiplies by sixteen.
  method SetStraddling(m: SectorCache, g: Geometry, fat: nat, cluster: nat, next: nat)
    requires m.Shape() && HasEntry(|m.dev|, g, fat, cluster) && g.kind == Fat12 && next < g.kind.Cap()
    requires m.FreshFor(EntrySector(g, fat, cluster)) && g.EntryOff(cluster) % SECTOR == SECTOR - 1
    modifies m, m.buf
    ensures m.Coherent() && m.Img() == SetEntry(old(m.Img()), g, fat, cluster, next)
    ensures m.bound && m.sector == LastSector(g, fat, cluster)
  {
    EntrySectorBounds(g, |m.dev|, fat, cluster);
    LastStraddling(g, fat, cluster);
    hide Geometry.Valid, Geometry.FatBase, Geometry.EntryOff, EntrySector, FirstHalf, SecondHalf, Store, LastSector, Straddles, InCopies, Geometry.FatEnd, SectorCache.Img, SectorCache.Fetched;
    var sector := EntrySector(g, fat, cluster);
    var offset := SECTOR - 1;
    ghost var img := m.Img();
    StoreHalf(m, sector, offset, true, cluster % 2 == 1, next);
    StoreHalf(m, sector + 1, 0, false, cluster % 2 == 1, next);
    StraddlingStore(img, g.EntryAddr(fat, cluster), cluster % 2 == 1, next);
  }

  // Half of that branch: get the sector, change one byte, put it back.
  method StoreHalf(m: SectorCache, sector: nat, at: nat, first: bool, odd: bool, next: nat)
    requires SECTOR * (sector + 1) <= |m.dev| && at < SECTOR && next < 0x1000 && m.FreshFor(sector)
    modifies m, m.buf
    ensures m.Coherent() && m.bound && m.sector == sector
    ensures m.Img() == Splice(old(m.Img()), SECTOR * sector + at, [Half(first, odd, old(m.Img())[SECTOR * sector + at], next)])
  {
    hide Half;
    m.Load(sector);
    BufferedLoads(m.Img(), sector, at);
    m.Patch(sector, at, [Half(first, odd, m.buf[at], next)]);
  }

  function Half(first: bool, odd: bool, b: byte, next: nat): byte
    requires next < 0x1000
  {
    if first then FirstHalf(odd, b, next) else SecondHalf(odd, b, next)
  }

  lemma LastStraddling(g: Geometry, k: nat, c: nat)
    requires g.kind == Fat12 && g.EntryOff(c) % SECTOR == SECTOR - 1
    ensures Straddles(g, c) && LastSector(g, k, c) == EntrySector(g, k, c) + 1
  {
  }

  /** Writing the two halves one after the other stores the entry. */
  lemma StraddlingStore(img: seq<byte>, a: nat, odd: bool, next: nat)
    requires a + 2 <= |img| && next < 0x1000
    ensures Splice(Splice(img, a, [FirstHalf(odd, img[a], next)]), a + 1, [SecondHalf(odd, img[a + 1], next)])
      == Store(img, Fat12, a, odd, next)
  {
    hide FirstHalf, SecondHalf, Put12, Le16;
    SpliceAdjacent(img, a, [FirstHalf(odd, img[a], next)], [SecondHalf(odd, img[a + 1], next)]);
    StraddlingBytes(img[a], img[a + 1], odd, next);
  }

  function FirstHalf(odd: bool, low: byte, next: nat): byte
    requires next < 0x1000
  {
    if odd then low % 0x10 + next * 0x10 % 0x100 else next % 0x100
  }

  function SecondHalf(odd: bool, high: byte, next: nat): byte
    requires next < 0x1000
  {
    if odd then next * 0x10 / 0x100 else high - high % 0x10 + next / 0x100 % 0x10
  }

  lemma StraddlingBytes(low: byte, high: byte, odd: bool, next: nat)
    requires next < 0x1000
    ensures Le16(Put12(odd, low as int + 0x100 * (high as int), next))
      == [FirstHalf(odd, low, next), SecondHalf(odd, high, next)]
  {
    if odd {
      StraddlingOdd(low, high, next);
    } else {
      StraddlingEven(low, high, next);
    }
  }

  lemma StraddlingOdd(l: int, h: int, next: nat)
    requires 0 <= l < 0x100 && 0 <= h < 0x100 && next < 0x1000
    ensures var v := next * 0x10 + (l + 0x100 * h) % 0x10;
      v % 0x100 == l % 0x10 + next * 0x10 % 0x100 && v / 0x100 == next * 0x10 / 0x100
  {
    var q, r := next / 0x10, next % 0x10;
    assert (l + 0x100 * h) % 0x10 == l % 0x10;
    HighLow(next * 0x10, q, 0x10 * r);
    HighLow(next * 0x10 + l % 0x10, q, 0x10 * r + l % 0x10);
  }

  lemma HighLow(v: int, q: int, s: int)
    requires v == 0x100 * q + s && 0 <= s < 0x100
    ensures v / 0x100 == q && v % 0x100 == s
  {
  }

  lemma StraddlingEven(l: int, h: int, next: nat)
    requires 0 <= l < 0x100 && 0 <= h < 0x100 && next < 0x1000
    ensures var v := next + (l + 0x100 * h - (l + 0x100 * h) % 0x1000);
      v % 0x100 == next % 0x100 && v / 0x100 == h - h % 0x10 + next / 0x100 % 0x10
  {
    assert (l + 0x100 * h) % 0x1000 == l + 0x100 * (h % 0x10);
    assert l + 0x100 * h - (l + 0x100 * (h % 0x10)) == 0x1000 * (h / 0x10);
    assert (next + 0x1000 * (h / 0x10)) / 0x100 == next / 0x100 + 0x10 * (h / 0x10);
  }

  // fat_set_next_cluster: every copy of the table is updated.
  method SetNextCluster(m: SectorCache, g: Geometry, cluster: nat, next: nat)
    requires Sound(m, g) && cluster < g.Entries() && next < g.kind.Cap()
    modifies m, m.buf
    ensures m.Coherent() && m.Img() == SetCopies(old(m.Img()), g, cluster, next, g.numFats)
    ensures Table(m.Img(), g) == old(Table(m.Img(), g))[cluster := next]
    ensures SameOutsideFat(old(m.Img()), m.Img(), g)
    ensures old(Mirrored(m.Img(), g)) ==> Mirrored(m.Img(), g)
    ensures m.bound && m.sector == LastSector(g, g.numFats - 1, cluster)
  {
    hide Geometry.Valid, Geometry.FatBase, Geometry.EntryOff, EntrySector, SetEntry, Table, Mirrored;
    EntryInCopy(g, |m.dev|, cluster);
    ghost var img := m.Img();
    var i := 0;
    while i < g.numFats
      invariant 0 <= i <= g.numFats
      invariant m.Shape() && |m.dev| == |img|
      invariant if i == 0 then Sound(m, g) else m.Coherent()
      invariant m.Img() == SetCopies(img, g, cluster, next, i)
      invariant i > 0 ==> m.bound && m.sector == LastSector(g, i - 1, cluster)
    {
      EntrySectorBounds(g, |m.dev|, i, cluster);
      match g.kind {
        case Fat12 => SetNext12(m, g, i, cluster, next);
        case Fat16 => SetNext16(m, g, i, cluster, next);
        case Fat32 => SetNext32(m, g, i, cluster, next);
      }
      i := i + 1;
    }
    SetCopiesSpec(img, g, cluster, next);
  }
}
