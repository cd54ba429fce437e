/** Byte images, sectors and the little-endian accessors of leaccess.h. */
module Bytes {

  type byte = x: int | 0 <= x < 256

  // The RAM disk moves 512-byte sectors and the driver's one buffer is 512 bytes long.
  const SECTOR := 512

  /** The image `s` with `d` written over it at offset `at`. */
  function Splice<T>(s: seq<T>, at: nat, d: seq<T>): (r: seq<T>)
    requires at + |d| <= |s|
    ensures |r| == |s|
  {
    seq(|s|, i requires 0 <= i < |s| => if at <= i < at + |d| then d[i - at] else s[i])
  }

  /** Sector `n` of a device image. */
  function Sector(img: seq<byte>, n: nat): (r: seq<byte>)
    requires SECTOR * (n + 1) <= |img|
    ensures |r| == SECTOR
  {
    img[SECTOR * n..SECTOR * n + SECTOR]
  }

  lemma SpliceTwice<T>(s: seq<T>, at: nat, d: seq<T>, e: seq<T>)
    requires at + |d| <= |s| && |e| == |d|
    ensures Splice(Splice(s, at, d), at, e) == Splice(s, at, e)
  {
  }

  /** Patching a sector buffer and putting the sector back patches the image in place. */
  lemma SplicePatchedSector(img: seq<byte>, n: nat, at: nat, d: seq<byte>)
    requires SECTOR * (n + 1) <= |img| && at + |d| <= SECTOR
    ensures Splice(img, SECTOR * n, Splice(Sector(img, n), at, d)) == Splice(img, SECTOR * n + at, d)
  {
  }

  /** Two writes side by side are one write of the concatenation. */
  lemma SpliceAdjacent<T>(s: seq<T>, at: nat, d: seq<T>, e: seq<T>)
    requires at + |d| + |e| <= |s|
    ensures Splice(Splice(s, at, d), at + |d|, e) == Splice(s, at, d + e)
  {
  }

  /** A copy made piece by piece is the copy made at once. */
  lemma SpliceSlices<T>(s: seq<T>, d: seq<T>, a: nat, b: nat, c: nat)
    requires a <= b <= c <= |d| && c - a <= |s|
    ensures Splice(Splice(s, 0, d[a..b]), b - a, d[b..c]) == Splice(s, 0, d[a..c])
  {
    assert d[a..b] + d[b..c] == d[a..c];
    SpliceAdjacent(s, 0, d[a..b], d[b..c]);
  }

  lemma SpliceNothing<T>(s: seq<T>, d: seq<T>, a: nat)
    requires a <= |d|
    ensures Splice(s, 0, d[a..a]) == s
  {
  }

  // __get_le16, __get_le32
  function Get16(s: seq<byte>, o: nat): (v: nat)
    requires o + 2 <= |s|
    ensures v < 0x1_0000
  {
    s[o] as int + 0x100 * (s[o + 1] as int)
  }

  function Get32(s: seq<byte>, o: nat): (v: nat)
    requires o + 4 <= |s|
    ensures v < 0x1_0000_0000
  {
    Get16(s, o) + 0x1_0000 * Get16(s, o + 2)
  }

  // The bytes stored by __put_le16 and __put_le32.
  function Le16(v: nat): (r: seq<byte>)
    requires v < 0x1_0000
    ensures |r| == 2
  {
    [v % 0x100, v / 0x100]
  }

  function Le32(v: nat): (r: seq<byte>)
    requires v < 0x1_0000_0000
    ensures |r| == 4
  {
    Le16(v % 0x1_0000) + Le16(v / 0x1_0000)
  }

  lemma Get16OfSplice(s: seq<byte>, o: nat, v: nat)
    requires o + 2 <= |s| && v < 0x1_0000
    ensures Get16(Splice(s, o, Le16(v)), o) == v
  {
  }

  lemma Get32OfSplice(s: seq<byte>, o: nat, v: nat)
    requires o + 4 <= |s| && v < 0x1_0000_0000
    ensures Get32(Splice(s, o, Le32(v)), o) == v
  {
    var t := Splice(s, o, Le32(v));
    assert Get16(t, o) == v % 0x1_0000;
    assert Get16(t, o + 2) == v / 0x1_0000;
  }

  method PutLe16(buf: array<byte>, o: nat, v: nat)
    requires o + 2 <= buf.Length && v < 0x1_0000
    modifies buf
    ensures buf[..] == Splice(old(buf[..]), o, Le16(v))
  {
    buf[o] := v % 0x100;
    buf[o + 1] := v / 0x100;
  }

  method PutLe32(buf: array<byte>, o: nat, v: nat)
    requires o + 4 <= buf.Length && v < 0x1_0000_0000
    modifies buf
    ensures buf[..] == Splice(old(buf[..]), o, Le32(v))
  {
    PutLe16(buf, o, v % 0x1_0000);
    PutLe16(buf, o + 2, v / 0x1_0000);
    SpliceAdjacent(old(buf[..]), o, Le16(v % 0x1_0000), Le16(v / 0x1_0000));
  }

  /** memcpy of part of `src` into a buffer. */
  method CopyInto(buf: array<byte>, at: nat, src: seq<byte>, from: nat, n: nat)
    requires at + n <= buf.Length && from + n <= |src|
    modifies buf
    ensures buf[..] == Splice(old(buf[..]), at, src[from..from + n])
  {
    var k := 0;
    while k < n
      invariant 0 <= k <= n
      invariant forall i :: 0 <= i < buf.Length ==>
        buf[i] == if at <= i < at + k then src[from + (i - at)] else old(buf[i])
    {
      buf[at + k] := src[from + k];
      k := k + 1;
    }
  }
}
