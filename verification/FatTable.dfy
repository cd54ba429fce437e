/** The packed file allocation table: twelve, sixteen and thirty-two bit entries. */
module FatTable {
  import opened Bytes
  import opened Geometry

  // ---- Entries as stored at a byte address ------------------------------------------------

  // A FAT12 entry is the low or the high twelve bits of a little-endian pair of bytes.
  function Take12(odd: bool, v: nat): nat {
    if odd then v / 0x10 else v % 0x1000
  }

  function Put12(odd: bool, v: nat, next: nat): (r: nat)
    requires v < 0x1_0000 && next < 0x1000
    ensures r < 0x1_0000
  {
    if odd then next * 0x10 + v % 0x10 else next + (v - v % 0x1000)
  }

  lemma Put12Take12(odd: bool, v: nat, next: nat)
    requires v < 0x1_0000 && next < 0x1000
    ensures Take12(odd, Put12(odd, v, next)) == next
  {
  }

  // A FAT32 entry is the low 28 bits of a little-endian word; the top nybble is not the driver's.
  function Put28(v: nat, next: nat): (r: nat)
    requires v < 0x1_0000_0000 && next < 0x1000_0000
    ensures r < 0x1_0000_0000
  {
    next + v / 0x1000_0000 * 0x1000_0000
  }

  lemma Put28Keeps(v: nat, next: nat)
    requires v < 0x1_0000_0000 && next < 0x1000_0000
    ensures Put28(v, next) % 0x1000_0000 == next && Put28(v, next) / 0x1000_0000 == v / 0x1000_0000
  {
  }

  /** The entry value stored at address `a`. */
  function Pick(img: seq<byte>, kind: Kind, a: nat, odd: bool): (v: nat)
    requires a + kind.Width() <= |img|
    ensures v < kind.Cap()
  {
    match kind
    case Fat12 => Take12(odd, Get16(img, a))
    case Fat16 => Get16(img, a)
    case Fat32 => Get32(img, a) % 0x1000_0000
  }

  /** The bytes that store `next` at `a`: a neighbour's nybble and FAT32's top nybble stay. */
  function Encoded(img: seq<byte>, kind: Kind, a: nat, odd: bool, next: nat): (d: seq<byte>)
    requires a + kind.Width() <= |img| && next < kind.Cap()
    ensures |d| == kind.Width()
  {
    match kind
    case Fat12 => Le16(Put12(odd, Get16(img, a), next))
    case Fat16 => Le16(next)
    case Fat32 => Le32(Put28(Get32(img, a), next))
  }

  function Store(img: seq<byte>, kind: Kind, a: nat, odd: bool, next: nat): (r: seq<byte>)
    requires a + kind.Width() <= |img| && next < kind.Cap()
    ensures |r| == |img|
  {
    Splice(img, a, Encoded(img, kind, a, odd, next))
  }

  lemma PickOfStore(img: seq<byte>, kind: Kind, a: nat, odd: bool, next: nat)
    requires a + kind.Width() <= |img| && next < kind.Cap()
    ensures Pick(Store(img, kind, a, odd, next), kind, a, odd) == next
    ensures kind == Fat32 ==>
      Get32(Store(img, kind, a, odd, next), a) / 0x1000_0000 == Get32(img, a) / 0x1000_0000
  {
    match kind
    case Fat12 =>
      Put12Take12(odd, Get16(img, a), next);
      Get16OfSplice(img, a, Put12(odd, Get16(img, a), next));
    case Fat16 => Get16OfSplice(img, a, next);
    case Fat32 =>
      Put28Keeps(Get32(img, a), next);
      Get32OfSplice(img, a, Put28(Get32(img, a), next));
  }

  lemma Remainder(r: int, d: int, q: int)
    requires 0 <= r < d && (d == 0x10 || d == 0x100 || d == 0x1000)
    ensures (r + d * q) / d == q && (r + d * q) % d == r
  {
    if d == 0x10 {
      assert (r + 0x10 * q) / 0x10 == q;
    } else if d == 0x100 {
      assert (r + 0x100 * q) / 0x100 == q;
    } else {
      assert (r + 0x1000 * q) / 0x1000 == q;
    }
  }

  // The two FAT12 entries that meet in the byte `y`: the even one owns its low nybble.
  lemma EvenKeepsOdd(x: int, y: int, z: int, next: int)
    requires 0 <= x < 0x100 && 0 <= y < 0x100 && 0 <= z < 0x100 && 0 <= next < 0x1000
    ensures Take12(true, Put12(false, x + 0x100 * y, next) / 0x100 + 0x100 * z) == Take12(true, y + 0x100 * z)
  {
    var h, l := y / 0x10, y % 0x10;
    assert y == 0x10 * h + l;
    assert (x + 0x100 * y) % 0x1000 == x + 0x100 * l by { Remainder(x + 0x100 * l, 0x1000, h); }
    assert Put12(false, x + 0x100 * y, next) == next + 0x1000 * h;
    assert (next + 0x1000 * h) / 0x100 == next / 0x100 + 0x10 * h;
    assert (next / 0x100 + 0x10 * h + 0x100 * z) / 0x10 == h + 0x10 * z by { Remainder(next / 0x100, 0x10, h + 0x10 * z); }
    assert (y + 0x100 * z) / 0x10 == h + 0x10 * z by { Remainder(l, 0x10, h + 0x10 * z); }
  }

  lemma OddKeepsEven(x: int, y: int, z: int, next: int)
    requires 0 <= x < 0x100 && 0 <= y < 0x100 && 0 <= z < 0x100 && 0 <= next < 0x1000
    ensures Take12(false, x + 0x100 * (Put12(true, y + 0x100 * z, next) % 0x100)) == Take12(false, x + 0x100 * y)
  {
    var h, l, q, m := y / 0x10, y % 0x10, next / 0x10, next % 0x10;
    assert y == 0x10 * h + l && next == 0x10 * q + m;
    assert (y + 0x100 * z) % 0x10 == l by { Remainder(l, 0x10, h + 0x10 * z); }
    assert (next * 0x10 + l) % 0x100 == m * 0x10 + l by { Remainder(m * 0x10 + l, 0x100, q); }
    assert (x + 0x100 * y) % 0x1000 == x + 0x100 * l by { Remainder(x + 0x100 * l, 0x1000, h); }
    assert (x + 0x100 * (m * 0x10 + l)) % 0x1000 == x + 0x100 * l by { Remainder(x + 0x100 * l, 0x1000, m); }
  }

  /** An even entry at `a` and the odd one after it do not disturb each other. */
  lemma NeighbourKept(img: seq<byte>, a: nat, next: nat)
    requires a + 3 <= |img| && next < 0x1000
    ensures Pick(Store(img, Fat12, a, false, next), Fat12, a + 1, true) == Pick(img, Fat12, a + 1, true)
    ensures Pick(Store(img, Fat12, a + 1, true, next), Fat12, a, false) == Pick(img, Fat12, a, false)
  {
    hide Take12, Put12;
    EvenKeepsOdd(img[a], img[a + 1], img[a + 2], next);
    OddKeepsEven(img[a], img[a + 1], img[a + 2], next);
  }

  /** An entry and its encoding depend on the entry's own bytes only. */
  lemma PickLocal(img: seq<byte>, a: nat, img': seq<byte>, b: nat, kind: Kind, odd: bool, next: nat)
    requires a + kind.Width() <= |img| && b + kind.Width() <= |img'| && next < kind.Cap()
    requires img[a] == img'[b] && img[a + 1] == img'[b + 1]
    requires kind == Fat32 ==> img[a + 2] == img'[b + 2] && img[a + 3] == img'[b + 3]
    ensures Pick(img, kind, a, odd) == Pick(img', kind, b, odd)
    ensures Encoded(img, kind, a, odd, next) == Encoded(img', kind, b, odd, next)
  {
    assert Get16(img, a) == Get16(img', b);
    if kind == Fat32 {
      assert Get32(img, a) == Get32(img', b);
    }
  }

  // ---- The table --------------------------------------------------------------------------

  /** Entry `c` of copy `k` exists on a device image of this length. */
  predicate HasEntry(len: nat, g: Geometry, k: nat, c: nat) {
    g.Valid(len) && k < g.numFats && c < g.Entries()
  }

  lemma EntryFits(g: Geometry, len: nat, k: nat, c: nat)
    requires HasEntry(len, g, k, c)
    ensures g.FatBase(k) <= g.EntryAddr(k, c)
    ensures g.EntryAddr(k, c) + g.kind.Width() <= g.FatBase(k) + SECTOR * g.fatSize <= SECTOR * g.FatEnd() <= len
  {
    hide Geometry.Valid, Geometry.FatBase, Geometry.EntryOff, Geometry.FatEnd;
    EntryInCopy(g, len, c);
    CopyBounds(g, k);
  }

  /** Entry `c` of copy `k` of the table. */
  function Entry(img: seq<byte>, g: Geometry, k: nat, c: nat): (v: nat)
    requires HasEntry(|img|, g, k, c)
    ensures v < g.kind.Cap()
  {
    EntryFits(g, |img|, k, c);
    Pick(img, g.kind, g.EntryAddr(k, c), c % 2 == 1)
  }

  function SetEntry(img: seq<byte>, g: Geometry, k: nat, c: nat, next: nat): (r: seq<byte>)
    requires HasEntry(|img|, g, k, c) && next < g.kind.Cap()
    ensures |r| == |img|
  {
    EntryFits(g, |img|, k, c);
    Store(img, g.kind, g.EntryAddr(k, c), c % 2 == 1, next)
  }

  /** The first `n` copies updated, in order. */
  function SetCopies(img: seq<byte>, g: Geometry, c: nat, next: nat, n: nat): (r: seq<byte>)
    requires g.Valid(|img|) && c < g.Entries() && n <= g.numFats && next < g.kind.Cap()
    ensures |r| == |img|
  {
    if n == 0 then img else SetEntry(SetCopies(img, g, c, next, n - 1), g, n - 1, c, next)
  }

  /** The table as the driver reads it, from the first copy. */
  function Table(img: seq<byte>, g: Geometry): (t: seq<nat>)
    requires g.Valid(|img|)
    ensures |t| == g.Entries()
  {
    seq(g.Entries(), c requires 0 <= c < g.Entries() => Entry(img, g, 0, c))
  }

  /** What the bytes of the first copy say: 12 bits packed two entries to three bytes, 16 bits, or the low
      28 of 32 bits, the low byte first. */
  lemma EntryBytes(img: seq<byte>, g: Geometry, c: nat)
    requires g.Valid(|img|) && c < g.Entries()
    ensures var i := SECTOR * g.reserved + match g.kind case Fat12 => 3 * c / 2 case Fat16 => 2 * c case Fat32 => 4 * c;
      i + g.kind.Width() <= |img| && Table(img, g)[c] == FromBytes(img, g.kind, i, c % 2 == 1)
  {
    hide Geometry.Valid, Pick, FromBytes;
    CopyBase(g, |img|);
    EntryFits(g, |img|, 0, c);
    PickBytes(img, g.kind, g.EntryAddr(0, c), c % 2 == 1);
  }

  function FromBytes(img: seq<byte>, kind: Kind, i: nat, odd: bool): nat
    requires i + kind.Width() <= |img|
  {
    var x: nat, y: nat := img[i], img[i + 1];
    match kind
    case Fat12 => if odd then x / 0x10 + 0x10 * y else x + 0x100 * (y % 0x10)
    case Fat16 => x + 0x100 * y
    case Fat32 => x + 0x100 * y + 0x1_0000 * img[i + 2] as nat + 0x100_0000 * (img[i + 3] as nat % 0x10)
  }

  lemma PickBytes(img: seq<byte>, kind: Kind, i: nat, odd: bool)
    requires i + kind.Width() <= |img|
    ensures Pick(img, kind, i, odd) == FromBytes(img, kind, i, odd)
  {
    var x: nat, y: nat := img[i], img[i + 1];
    match kind
    case Fat12 => Split12(x, y);
    case Fat16 =>
    case Fat32 => LowBits(x + 0x100 * y + 0x1_0000 * img[i + 2] as nat, img[i + 3]);
  }

  lemma CopyBase(g: Geometry, len: nat)
    requires g.Valid(len)
    ensures g.numFats >= 1 && g.FatBase(0) == SECTOR * g.reserved
  {
    CopyBounds(g, 0);
  }

  lemma LowBits(x: nat, y: nat)
    requires x < 0x100_0000
    ensures (x + 0x100_0000 * y) % 0x1000_0000 == x + 0x100_0000 * (y % 0x10)
  {
  }

  lemma Split12(x: nat, y: nat)
    requires x < 0x100
    ensures (x + 0x100 * y) % 0x1000 == x + 0x100 * (y % 0x10) && (x + 0x100 * y) / 0x10 == x / 0x10 + 0x10 * y
  {
  }

  // ---- Packed-table refinement ------------------------------------------------------------

  /**
   * Setting an entry of one copy: it reads back, every other entry of the copy keeps its value
   * (also the one sharing a byte), and a FAT32 word keeps its reserved top four bits.
   */
  lemma SetEntrySpec(img: seq<byte>, g: Geometry, k: nat, c: nat, next: nat, d: nat)
    requires HasEntry(|img|, g, k, c) && d < g.Entries() && next < g.kind.Cap()
    ensures Entry(SetEntry(img, g, k, c, next), g, k, d) == if d == c then next else Entry(img, g, k, d)
    ensures g.EntryAddr(k, c) + g.kind.Width() <= |img|
    ensures g.kind == Fat32 ==>
      Get32(SetEntry(img, g, k, c, next), g.EntryAddr(k, c)) / 0x1000_0000 == Get32(img, g.EntryAddr(k, c)) / 0x1000_0000
  {
    hide Geometry.Valid, Geometry.FatBase, Geometry.EntryOff, Pick, Store, Get32;
    EntryFits(g, |img|, k, c);
    EntryFits(g, |img|, k, d);
    var a := g.EntryAddr(k, c);
    PickOfStore(img, g.kind, a, c % 2 == 1, next);
    if c != d {
      EntryPlaces(g, c, d);
      if g.kind == Fat12 && c % 2 == 0 && d == c + 1 {
        NeighbourKept(img, a, next);
      } else if g.kind == Fat12 && c % 2 == 1 && d == c - 1 {
        NeighbourKept(img, a - 1, next);
      } else {
        PickApart(img, g.kind, a, c % 2 == 1, next, g.EntryAddr(k, d), d % 2 == 1);
      }
    }
  }

  lemma PickApart(img: seq<byte>, kind: Kind, a: nat, odd: bool, next: nat, b: nat, odd': bool)
    requires a + kind.Width() <= |img| && b + kind.Width() <= |img| && next < kind.Cap()
    requires a + kind.Width() <= b || b + kind.Width() <= a
    ensures Pick(Store(img, kind, a, odd, next), kind, b, odd') == Pick(img, kind, b, odd')
  {
    hide Encoded, Pick;
    PickLocal(Store(img, kind, a, odd, next), b, img, b, kind, odd', next);
  }

  /** Entries are apart, except that a FAT12 pair shares its middle byte. */
  lemma EntryPlaces(g: Geometry, c: nat, d: nat)
    requires c != d
    ensures var p, q, w := g.EntryOff(c), g.EntryOff(d), g.kind.Width();
      if g.kind == Fat12 && c % 2 == 0 && d == c + 1 then q == p + 1
      else if g.kind == Fat12 && c % 2 == 1 && d == c - 1 then q == p - 1
      else p + w <= q || q + w <= p
  {
  }

  /** Each byte of copy `k` is written by the update of copy `k` and by no other. */
  lemma {:induction false} SetCopiesByte(img: seq<byte>, g: Geometry, c: nat, next: nat, n: nat, k: nat, o: nat)
    requires g.Valid(|img|) && c < g.Entries() && n <= g.numFats && next < g.kind.Cap()
    requires k < g.numFats && o < SECTOR * g.fatSize
    ensures g.FatBase(k) + o < |img|
    ensures SetCopies(img, g, c, next, n)[g.FatBase(k) + o] ==
      (if k < n then SetEntry(img, g, k, c, next) else img)[g.FatBase(k) + o]
  {
    hide Geometry.Valid, Geometry.FatBase, Geometry.EntryOff, Encoded, SetEntry;
    EntryFits(g, |img|, k, c);
    if n > 0 {
      var before := SetCopies(img, g, c, next, n - 1);
      assert before[g.FatBase(k) + o] == (if k < n - 1 then SetEntry(img, g, k, c, next) else img)[g.FatBase(k) + o] by {
        SetCopiesByte(img, g, c, next, n - 1, k, o);
      }
      if n - 1 != k {
        OtherCopyByte(before, g, n - 1, c, next, k, o);
      } else {
        CopyUntouched(img, g, c, next, k);
        SameCopyByte(before, img, g, k, c, next, g.FatBase(k) + o);
      }
    }
  }

  lemma SameCopyByte(img: seq<byte>, img': seq<byte>, g: Geometry, k: nat, c: nat, next: nat, x: nat)
    requires HasEntry(|img|, g, k, c) && next < g.kind.Cap() && |img'| == |img| && x < |img| && img[x] == img'[x]
    requires g.EntryAddr(k, c) + g.kind.Width() <= |img|
    requires Encoded(img, g.kind, g.EntryAddr(k, c), c % 2 == 1, next) == Encoded(img', g.kind, g.EntryAddr(k, c), c % 2 == 1, next)
    ensures SetEntry(img, g, k, c, next)[x] == SetEntry(img', g, k, c, next)[x]
  {
    hide Geometry.Valid, Geometry.FatBase, Geometry.EntryOff, Encoded;
  }

  lemma OtherCopyByte(img: seq<byte>, g: Geometry, j: nat, c: nat, next: nat, k: nat, o: nat)
    requires HasEntry(|img|, g, j, c) && next < g.kind.Cap()
    requires k < g.numFats && j != k && o < SECTOR * g.fatSize
    ensures g.FatBase(k) + o < |img|
    ensures SetEntry(img, g, j, c, next)[g.FatBase(k) + o] == img[g.FatBase(k) + o]
  {
    hide Geometry.Valid, Geometry.FatBase, Encoded;
    EntryFits(g, |img|, j, c);
    EntryFits(g, |img|, k, c);
    if j < k {
      CopiesDisjoint(g, j, k);
    } else {
      CopiesDisjoint(g, k, j);
    }
  }

  lemma {:induction false} CopyUntouched(img: seq<byte>, g: Geometry, c: nat, next: nat, n: nat)
    requires g.Valid(|img|) && c < g.Entries() && n < g.numFats && next < g.kind.Cap()
    ensures g.EntryAddr(n, c) + g.kind.Width() <= |img|
    ensures Encoded(SetCopies(img, g, c, next, n), g.kind, g.EntryAddr(n, c), c % 2 == 1, next)
      == Encoded(img, g.kind, g.EntryAddr(n, c), c % 2 == 1, next)
  {
    hide Geometry.Valid, Geometry.FatBase, Encoded, SetCopies;
    EntryFits(g, |img|, n, c);
    var b := SetCopies(img, g, c, next, n);
    var off := g.EntryOff(c);
    SetCopiesByte(img, g, c, next, n, n, off);
    SetCopiesByte(img, g, c, next, n, n, off + 1);
    if g.kind == Fat32 {
      SetCopiesByte(img, g, c, next, n, n, off + 2);
      SetCopiesByte(img, g, c, next, n, n, off + 3);
    }
    PickLocal(img, g.EntryAddr(n, c), b, g.EntryAddr(n, c), g.kind, c % 2 == 1, next);
  }

  /** The bytes of copy `k` of the table. */
  function Copy(img: seq<byte>, g: Geometry, k: nat): (r: seq<byte>)
    requires g.Valid(|img|) && k < g.numFats
    ensures |r| == SECTOR * g.fatSize
  {
    CopyBounds(g, k);
    img[g.FatBase(k)..g.FatBase(k) + SECTOR * g.fatSize]
  }

  ghost predicate Mirrored(img: seq<byte>, g: Geometry)
    requires g.Valid(|img|)
  {
    forall k :: 0 <= k < g.numFats ==> Copy(img, g, k) == Copy(img, g, 0)
  }

  lemma CopyAt(img: seq<byte>, g: Geometry, k: nat, o: nat)
    requires g.Valid(|img|) && k < g.numFats && o < SECTOR * g.fatSize
    ensures g.FatBase(k) + o < |img| && Copy(img, g, k)[o] == img[g.FatBase(k) + o]
  {
    hide Geometry.Valid, Geometry.FatBase;
    CopyBounds(g, k);
    DeviceHoldsFats(g, |img|);
  }

  lemma DeviceHoldsFats(g: Geometry, len: nat)
    requires g.Valid(len)
    ensures SECTOR * g.FatEnd() <= SECTOR * g.firstData <= len
  {
  }

  ghost predicate SameOutsideFat(a: seq<byte>, b: seq<byte>, g: Geometry) {
    |a| == |b| && forall i {:trigger a[i]} {:trigger b[i]} :: 0 <= i < |a| && !g.InFat(i) ==> a[i] == b[i]
  }

  /**
   * What one update of all copies does: the driver's table changes in that entry only, the
   * copies stay equal and no byte outside the tables changes.
   */
  lemma SetCopiesSpec(img: seq<byte>, g: Geometry, c: nat, next: nat)
    requires g.Valid(|img|) && c < g.Entries() && next < g.kind.Cap()
    ensures var r := SetCopies(img, g, c, next, g.numFats);
      && Table(r, g) == Table(img, g)[c := next]
      && SameOutsideFat(img, r, g)
      && (Mirrored(img, g) ==> Mirrored(r, g))
  {
    hide Geometry.Valid, SetCopies, Mirrored, SameOutsideFat, Entry;
    var r := SetCopies(img, g, c, next, g.numFats);
    forall d | 0 <= d < g.Entries()
      ensures Table(r, g)[d] == Table(img, g)[c := next][d]
    {
      EntryInCopy(g, |img|, d);
      SetCopiesEntry(img, g, c, next, 0, d);
    }
    SetCopiesOutside(img, g, c, next, g.numFats);
    if Mirrored(img, g) {
      SetCopiesMirrored(img, g, c, next);
    }
  }

  /** Every copy of the table, not only the first, is updated in entry `c` and nowhere else. */
  lemma SetCopiesEntry(img: seq<byte>, g: Geometry, c: nat, next: nat, k: nat, d: nat)
    requires HasEntry(|img|, g, k, c) && d < g.Entries() && next < g.kind.Cap()
    ensures Entry(SetCopies(img, g, c, next, g.numFats), g, k, d) == if c == d then next else Entry(img, g, k, d)
  {
    hide Geometry.Valid, Geometry.FatBase, Encoded, SetCopies, SetEntry, Pick;
    EntryFits(g, |img|, k, d);
    var r := SetCopies(img, g, c, next, g.numFats);
    var one := SetEntry(img, g, k, c, next);
    var off := g.EntryOff(d);
    SetCopiesByte(img, g, c, next, g.numFats, k, off);
    SetCopiesByte(img, g, c, next, g.numFats, k, off + 1);
    if g.kind == Fat32 {
      SetCopiesByte(img, g, c, next, g.numFats, k, off + 2);
      SetCopiesByte(img, g, c, next, g.numFats, k, off + 3);
    }
    PickLocal(one, g.EntryAddr(k, d), r, g.EntryAddr(k, d), g.kind, d % 2 == 1, next);
    SetEntrySpec(img, g, k, c, next, d);
  }

  lemma {:induction false} SetCopiesOutside(img: seq<byte>, g: Geometry, c: nat, next: nat, n: nat)
    requires g.Valid(|img|) && c < g.Entries() && n <= g.numFats && next < g.kind.Cap()
    ensures SameOutsideFat(img, SetCopies(img, g, c, next, n), g)
  {
    hide Geometry.Valid, Geometry.FatBase, Geometry.FatEnd, Encoded;
    if n > 0 {
      SetCopiesOutside(img, g, c, next, n - 1);
      EntryFits(g, |img|, n - 1, c);
      CopyBounds(g, n - 1);
    }
  }

  lemma SetCopiesMirrored(img: seq<byte>, g: Geometry, c: nat, next: nat)
    requires g.Valid(|img|) && c < g.Entries() && next < g.kind.Cap() && Mirrored(img, g)
    ensures Mirrored(SetCopies(img, g, c, next, g.numFats), g)
  {
    hide Geometry.Valid, Geometry.FatBase, SetCopies, SetEntry, Copy;
    var r := SetCopies(img, g, c, next, g.numFats);
    forall k | 0 <= k < g.numFats
      ensures Copy(r, g, k) == Copy(r, g, 0)
    {
      forall o | 0 <= o < SECTOR * g.fatSize
        ensures Copy(r, g, k)[o] == Copy(r, g, 0)[o]
      {
        CopyAt(r, g, k, o);
        CopyAt(r, g, 0, o);
        SetCopiesByte(img, g, c, next, g.numFats, k, o);
        SetCopiesByte(img, g, c, next, g.numFats, 0, o);
        MirroredByte(img, g, k, c, next, o);
      }
    }
  }

  lemma MirroredByte(img: seq<byte>, g: Geometry, k: nat, c: nat, next: nat, o: nat)
    requires HasEntry(|img|, g, k, c) && next < g.kind.Cap() && Mirrored(img, g) && o < SECTOR * g.fatSize
    ensures g.FatBase(k) + o < |img| && g.FatBase(0) + o < |img|
    ensures SetEntry(img, g, k, c, next)[g.FatBase(k) + o] == SetEntry(img, g, 0, c, next)[g.FatBase(0) + o]
  {
    hide Geometry.Valid, Geometry.FatBase, Encoded, Mirrored;
    EntryFits(g, |img|, k, c);
    EntryFits(g, |img|, 0, c);
    MirroredEntry(img, g, k, c, next);
    SameByte(img, g, k, o);
  }

  /** In equal copies an entry reads the same and its update writes the same bytes. */
  lemma MirroredEntry(img: seq<byte>, g: Geometry, k: nat, c: nat, next: nat)
    requires HasEntry(|img|, g, k, c) && next < g.kind.Cap() && Mirrored(img, g)
    ensures g.EntryAddr(k, c) + g.kind.Width() <= |img| && g.EntryAddr(0, c) + g.kind.Width() <= |img|
    ensures Encoded(img, g.kind, g.EntryAddr(k, c), c % 2 == 1, next)
      == Encoded(img, g.kind, g.EntryAddr(0, c), c % 2 == 1, next)
    ensures Entry(img, g, k, c) == Entry(img, g, 0, c)
  {
    hide Geometry.Valid, Geometry.FatBase, Encoded, Pick, Mirrored;
    EntryFits(g, |img|, k, c);
    EntryFits(g, |img|, 0, c);
    var off := g.EntryOff(c);
    SameByte(img, g, k, off);
    SameByte(img, g, k, off + 1);
    if g.kind == Fat32 {
      SameByte(img, g, k, off + 2);
      SameByte(img, g, k, off + 3);
    }
    PickLocal(img, g.EntryAddr(k, c), img, g.EntryAddr(0, c), g.kind, c % 2 == 1, next);
  }

  lemma SameByte(img: seq<byte>, g: Geometry, k: nat, o: nat)
    requires g.Valid(|img|) && Mirrored(img, g) && k < g.numFats && o < SECTOR * g.fatSize
    ensures g.FatBase(k) + o < |img| && g.FatBase(0) + o < |img|
    ensures img[g.FatBase(k) + o] == img[g.FatBase(0) + o]
  {
    CopyAt(img, g, k, o);
    CopyAt(img, g, 0, o);
  }

  /** The table and its copies are functions of the FAT area alone. */
  lemma SameFat(img: seq<byte>, img': seq<byte>, g: Geometry)
    requires g.Valid(|img|) && |img'| == |img|
    requires forall a :: 0 <= a < |img| && g.InFat(a) ==> img'[a] == img[a]
    ensures Table(img', g) == Table(img, g)
    ensures Mirrored(img, g) ==> Mirrored(img', g)
  {
    hide Geometry.Valid, Geometry.FatBase, Geometry.FatEnd, Geometry.EntryOff, Pick;
    EntryInCopy(g, |img|, 0);
    forall c | 0 <= c < g.Entries()
      ensures Entry(img', g, 0, c) == Entry(img, g, 0, c)
    {
      EntryInCopy(g, |img|, c);
      EntryFits(g, |img|, 0, c);
      CopyBounds(g, 0);
      var a := g.EntryAddr(0, c);
      PickLocal(img, a, img', a, g.kind, c % 2 == 1, 0);
    }
    forall k | 0 <= k < g.numFats
      ensures Copy(img', g, k) == Copy(img, g, k)
    {
      CopyBounds(g, k);
      DeviceHoldsFats(g, |img|);
    }
  }
}
