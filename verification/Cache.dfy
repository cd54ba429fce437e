/** The one-line write-back sector cache of fat_core.h over a RAM disk. */
module Cache {
  import opened Bytes

  class SectorCache {
    var dev: seq<byte>         // the RAM disk, as one flat image
    const buf: array<byte>     // _fat_sector_buf
    var bound: bool            // _fat_cache.bldev is this device (NULL before the first access)
    var sector: nat            // _fat_cache.sector
    var dirty: bool            // _fat_cache.dirty

    ghost predicate Shape()
      reads this, buf
    {
      buf.Length == SECTOR && (dirty ==> bound) && (bound ==> SECTOR * (sector + 1) <= |dev|)
    }

    /** The disk a reader should see: the device overlaid by a dirty buffer. */
    ghost function Img(): (img: seq<byte>)
      requires Shape()
      reads this, buf
      ensures |img| == |dev|
    {
      if dirty then Splice(dev, SECTOR * sector, buf[..]) else dev
    }

    /** The tag tells the truth about the buffer. */
    ghost predicate Coherent()
      reads this, buf
    {
      Shape() && (bound ==> buf[..] == Sector(Img(), sector))
    }

    /** A lookup of sector `s` cannot hit a stale tag. */
    ghost predicate FreshFor(s: nat)
      reads this, buf
    {
      Shape() && (bound && sector == s ==> Coherent())
    }

    constructor (image: seq<byte>)
      ensures Coherent() && Img() == image && fresh(buf)
    {
      dev := image;
      buf := new byte[SECTOR];
      bound, sector, dirty := false, 0, false;
    }

    // FAT_FLUSH_SECTOR
    method Flush()
      requires Shape()
      modifies this
      ensures Shape() && !dirty && dev == old(Img()) && Img() == old(Img())
      ensures bound == old(bound) && sector == old(sector)
      ensures old(Coherent()) ==> Coherent()
    {
      if dirty {
        dev := Splice(dev, SECTOR * sector, buf[..]);
      }
      dirty := false;
    }

    /** What a GET of sector `s` leaves in the buffer: the buffer itself under its own tag. */
    ghost function Fetched(s: nat): seq<byte>
      requires Shape() && SECTOR * (s + 1) <= |dev|
      reads this, buf
    {
      if bound && sector == s then buf[..] else Sector(Img(), s)
    }

    // FAT_GET_SECTOR
    method Get(s: nat)
      requires Shape() && SECTOR * (s + 1) <= |dev|
      modifies this, buf
      ensures Shape() && Img() == old(Img()) && bound && sector == s && buf[..] == old(Fetched(s))
      ensures old(FreshFor(s)) ==> Coherent() && buf[..] == Sector(Img(), s)
    {
      if bound && sector == s {
        return;
      }
      Flush();
      bound, sector := true, s;
      CopyInto(buf, 0, dev, SECTOR * s, SECTOR);
    }

    /** A GET under a true tag. */
    method Load(s: nat)
      requires SECTOR * (s + 1) <= |dev| && FreshFor(s)
      modifies this, buf
      ensures Coherent() && Img() == old(Img())
      ensures bound && sector == s && buf[..] == Sector(Img(), s)
    {
      Get(s);
    }

    // FAT_PUT_SECTOR.  The buffer has usually been overwritten since the last access, so the
    // result is stated about the buffer itself.
    method Put(s: nat)
      requires Shape() && SECTOR * (s + 1) <= |dev|
      requires (bound && sector == s) || !dirty
      modifies this
      ensures Coherent() && dirty && dev == old(dev) && bound && sector == s
      ensures Img() == Splice(old(dev), SECTOR * s, buf[..])
    {
      if !bound || sector != s {
        Flush();
      }
      bound, sector, dirty := true, s, true;
    }

    /** Read one sector through the cache. */
    method ReadSector(s: nat) returns (d: seq<byte>)
      requires Coherent() && SECTOR * (s + 1) <= |dev|
      modifies this, buf
      ensures Coherent() && Img() == old(Img()) && d == Sector(Img(), s)
    {
      Load(s);
      d := buf[..];
    }

    /** GET, modify `d` at `at`, PUT: only those bytes of the disk change. */
    method Patch(s: nat, at: nat, d: seq<byte>)
      requires SECTOR * (s + 1) <= |dev| && at + |d| <= SECTOR
      requires FreshFor(s)
      modifies this, buf
      ensures Coherent() && Img() == Splice(old(Img()), SECTOR * s + at, d)
      ensures bound && sector == s
    {
      Load(s);
      ghost var img := Img();
      ghost var dev0 := dev;
      ghost var old0 := buf[..];
      CopyInto(buf, at, d, 0, |d|);
      assert d[0..|d|] == d;
      Put(s);
      PatchedOverlay(dev0, img, s, old0, at, d);
    }
  }

  // ---- Any sequence of accesses refines direct sector access -------------------------------

  datatype Request = Fetch(s: nat) | Change(s: nat, at: nat, d: seq<byte>) | Sync

  predicate Addressable(r: Request, len: nat) {
    match r
    case Fetch(s) => SECTOR * (s + 1) <= len
    case Change(s, at, d) => SECTOR * (s + 1) <= len && at + |d| <= SECTOR
    case Sync => true
  }

  predicate AllAddressable(reqs: seq<Request>, len: nat) {
    forall i :: 0 <= i < |reqs| ==> Addressable(reqs[i], len)
  }

  /** The disk after direct, uncached service of the requests. */
  function Disk(img: seq<byte>, reqs: seq<Request>): (r: seq<byte>)
    requires AllAddressable(reqs, |img|)
    ensures |r| == |img|
  {
    if reqs == [] then img else
      var n := |reqs| - 1;
      assert Addressable(reqs[n], |img|);
      After(Disk(img, reqs[..n]), reqs[n])
  }

  /** The sectors such service would hand out, in order. */
  function Answers(img: seq<byte>, reqs: seq<Request>): seq<seq<byte>>
    requires AllAddressable(reqs, |img|)
  {
    if reqs == [] then [] else
      var n := |reqs| - 1;
      assert Addressable(reqs[n], |img|);
      Answers(img, reqs[..n]) + Answer(Disk(img, reqs[..n]), reqs[n])
  }

  /** One request on a disk: the disk and the answer. */
  function After(img: seq<byte>, r: Request): (t: seq<byte>)
    requires Addressable(r, |img|)
    ensures |t| == |img|
  {
    if r.Change? then Splice(img, SECTOR * r.s + r.at, r.d) else img
  }

  function Answer(img: seq<byte>, r: Request): seq<seq<byte>>
    requires Addressable(r, |img|)
  {
    if r.Fetch? then [Sector(img, r.s)] else []
  }

  method ServeOne(m: SectorCache, r: Request) returns (answer: seq<seq<byte>>)
    requires m.Coherent() && Addressable(r, |m.dev|)
    modifies m, m.buf
    ensures m.Coherent() && m.Img() == After(old(m.Img()), r) && answer == Answer(old(m.Img()), r)
    ensures r.Sync? ==> m.dev == m.Img()
  {
    answer := [];
    match r {
      case Fetch(s) =>
        var d := m.ReadSector(s);
        answer := [d];
      case Change(s, at, d) => m.Patch(s, at, d);
      case Sync => m.Flush();
    }
  }

  method Serve(m: SectorCache, reqs: seq<Request>) returns (answers: seq<seq<byte>>)
    requires m.Coherent() && AllAddressable(reqs, |m.dev|)
    modifies m, m.buf
    ensures m.Coherent() && answers == Answers(old(m.Img()), reqs) && m.Img() == Disk(old(m.Img()), reqs)
    ensures reqs != [] && reqs[|reqs| - 1].Sync? ==> m.dev == m.Img()
  {
    hide After, Answer, SectorCache.Img;
    ghost var img := m.Img();
    answers := [];
    var i := 0;
    while i < |reqs|
      invariant 0 <= i <= |reqs| && m.Coherent() && |m.dev| == |img|
      invariant answers == Answers(img, reqs[..i]) && m.Img() == Disk(img, reqs[..i])
      invariant i > 0 && reqs[i - 1].Sync? ==> m.dev == m.Img()
    {
      assert Addressable(reqs[i], |img|);
      assert reqs[..i + 1][..i] == reqs[..i];
      var more := ServeOne(m, reqs[i]);
      answers := answers + more;
      i := i + 1;
    }
    assert reqs[..|reqs|] == reqs;
  }

  /** Writing the patched buffer over the device or over the image seen before agree. */
  lemma PatchedOverlay(dev: seq<byte>, img: seq<byte>, s: nat, b: seq<byte>, at: nat, d: seq<byte>)
    requires |img| == |dev| && SECTOR * (s + 1) <= |dev| && at + |d| <= SECTOR
    requires b == Sector(img, s)
    requires img == dev || img == Splice(dev, SECTOR * s, b)
    ensures Splice(dev, SECTOR * s, Splice(b, at, d)) == Splice(img, SECTOR * s + at, d)
  {
    SplicePatchedSector(img, s, at, d);
    if img != dev {
      SpliceTwice(dev, SECTOR * s, b, Splice(b, at, d));
    }
  }
}
