/** Directories as files of 32-byte slots: reading entries, finding room, writing long names. */
module DirOps {
  import opened Arithmetic
  import opened Bytes
  import opened Geometry
  import opened FatTable
  import opened FatAccess
  import opened Chains
  import opened ChainOps
  import opened Extents
  import opened Growth
  import opened Layouts
  import opened Writing
  import opened Files
  import opened LongNames
  import opened ShortNames
  import opened Slots
  import opened Listing

  /** A directory: the fixed root, or a chain, whose size field is 0. */
  ghost predicate Directory(f: File)
    reads f, f.fat, f.fat.m, f.fat.m.buf
  {
    f.Placed() && (f.rootFlag || f.size == 0)
  }

  /** A directory handle at a slot boundary. */
  ghost predicate DirHandle(f: File)
    reads f, f.fat, f.fat.m, f.fat.m.buf
  {
    Directory(f) && f.Settled() && f.position % SLOT == 0
  }

  // ---- Reading one entry ------------------------------------------------------------------

  lemma CursorAligned(g: Geometry, lay: Layout, pos: nat, cur: nat)
    requires Usable(g, lay) && CursorAt(g, lay, pos, cur) && pos % SLOT == 0
    ensures pos <= Total(g, lay) && (pos < Total(g, lay) ==> pos + SLOT <= Total(g, lay))
    ensures SLOT * (pos / SLOT) == pos && Total(g, lay) % SLOT == 0
  {
    hide Secs, ClusterAt;
  }

  lemma RootLength(f: File)
    requires f.Placed()
    ensures f.rootFlag ==> f.Len() == f.size && f.size > 0
    ensures Usable(f.fat.g, f.Lay()) && f.Len() == Total(f.fat.g, f.Lay())
  {
    hide Geometry.Valid, Table, ChainSectors;
  }

  /** The slots a directory handle has before it. */
  ghost function Ahead(f: File): (r: seq<Slot>)
    requires DirHandle(f)
    reads f, f.fat, f.fat.m, f.fat.m.buf
  {
    AheadFits(f);
    SlotsFrom(f.Bytes(), f.position / SLOT)
  }

  /** All the slots of a directory. */
  ghost function AllSlots(f: File): (r: seq<Slot>)
    requires Directory(f)
    reads f, f.fat, f.fat.m, f.fat.m.buf
  {
    BytesWhole(f);
    SlotsFrom(f.Bytes(), 0)
  }

  lemma BytesWhole(f: File)
    requires Directory(f)
    ensures f.Placed() && |f.Bytes()| % SLOT == 0
  {
    hide Geometry.Valid, Laid, Data, Secs;
  }

  lemma SlotBounds(f: File)
    requires Directory(f)
    ensures f.Len() == SLOT * |AllSlots(f)|
  {
    hide Laid, Secs, Data;
    BytesWhole(f);
  }

  lemma HandleDir(f: File)
    requires DirHandle(f)
    ensures Directory(f) && f.Settled()
  {
  }

  lemma HandleShape(f: File)
    requires Directory(f)
    ensures f.fat.m.Shape()
  {
  }

  lemma AheadFits(f: File)
    requires DirHandle(f)
    ensures SLOT * (f.position / SLOT) == f.position <= |f.Bytes()| && |f.Bytes()| % SLOT == 0
  {
    hide Geometry.Valid, Laid, CursorAt, Secs, Data, Total;
    RootLength(f);
    CursorAligned(f.fat.g, f.Lay(), f.position, f.curCluster);
  }

  lemma RootBound(f: File)
    requires DirHandle(f)
    ensures f.position + SLOT < U32
  {
    hide Geometry.Valid, Table, ChainSectors, CursorAt;
    HandleShape(f);
    LaidSize(f.fat.g, f.fat.m.Img(), f.Lay());
    RootLength(f);
    CursorAligned(f.fat.g, f.Lay(), f.position, f.curCluster);
  }

  /** One 32-byte read: a slot, or nothing at the end of the fixed root directory. */
  method NextSlot(f: File) returns (got: bool, s: Slot)
    requires DirHandle(f) && (f.rootFlag || Ahead(f) != [])
    modifies f`position, f`curCluster, f.fat.m, f.fat.m.buf
    ensures DirHandle(f) && f.fat.m.Shape() && f.fat.m.Img() == old(f.fat.m.Img())
    ensures got <==> old(Ahead(f)) != []
    ensures f.position == old(f.position) + if got then SLOT else 0
    ensures got ==> s == old(Ahead(f))[0] && Ahead(f) == old(Ahead(f))[1..]
    ensures !got ==> Ahead(f) == []
    ensures AllSlots(f) == old(AllSlots(f))
    ensures got ==> f.fat.m.Coherent() && Sound(f.fat.m, f.fat.g)
    ensures old(Sound(f.fat.m, f.fat.g)) ==> Sound(f.fat.m, f.fat.g)
  {
    hide Geometry.Valid, Table, Laid, CursorAt, Secs, Data, SlotsFrom;
    ghost var data := f.Bytes();
    RootLength(f);
    AheadFits(f);
    AheadShrinks(data, f.position);
    RootBound(f);
    var out := new byte[SLOT];
    var n := f.Read(out, SLOT);
    got, s := n == SLOT, out[..];
  }

  lemma AheadIs(f: File)
    requires DirHandle(f)
    ensures f.position / SLOT <= |AllSlots(f)| && Ahead(f) == AllSlots(f)[f.position / SLOT..]
  {
    hide SlotOf, Data, Secs, Laid, CursorAt;
    AheadFits(f);
    SlotBounds(f);
    SlotsSplit(f.Bytes(), 0, f.position / SLOT);
  }

  // In fat_open: one entry back, where it lies on the disk, and the entry again
  method EntryAgain(f: File) returns (s: Slot, sector: nat, offset: nat)
    requires DirHandle(f) && f.position >= SLOT && f.CanWalk(f.position - SLOT)
    modifies f`position, f`curCluster, f.fat.m, f.fat.m.buf
    ensures DirHandle(f) && f.fat.m.Shape() && f.fat.m.Img() == old(f.fat.m.Img()) && f.position == old(f.position)
    ensures AllSlots(f) == old(AllSlots(f)) && 0 < f.position / SLOT <= |AllSlots(f)| && s == AllSlots(f)[f.position / SLOT - 1]
    ensures SECTOR * sector + offset + SLOT <= |f.fat.m.Img()| && SlotOf(f.fat.m.Img(), SECTOR * sector + offset) == s
  {
    hide Geometry.Valid, Table, Laid, CursorAt, Secs, Data, SlotsFrom, SlotOf, Sound;
    RootLength(f);
    RootBound(f);
    AheadFits(f);
    AheadIs(f);
    ghost var pos, all := f.position, AllSlots(f);
    BackOne(f, pos);
    var r := f.LSeek(U32 - SLOT, SeekCur);
    AheadFits(f);
    AheadIs(f);
    NoSlip(f.fat.g);
    sector, offset := f.SectorOffset(0);
    SlotOnDisk(f, sector, offset);
    var got;
    got, s := NextSlot(f);
  }

  lemma BackOne(f: File, pos: nat)
    requires DirHandle(f) && f.position == pos && SLOT <= pos < U32 && pos <= f.Len()
    ensures f.Target(U32 - SLOT, SeekCur) == pos - SLOT
    ensures (pos - SLOT) % SLOT == 0 && (pos - SLOT) / SLOT == pos / SLOT - 1
  {
    hide Geometry.Valid, Table, Laid, CursorAt, Secs;
    RootLength(f);
  }

  /** The slot under the cursor lies at the sector and offset of the position. */
  lemma SlotOnDisk(f: File, sector: nat, offset: nat)
    requires DirHandle(f) && f.position < f.Len() && f.fat.m.Shape()
    requires f.position / SECTOR < |Secs(f.fat.g, f.Lay())| && sector == Secs(f.fat.g, f.Lay())[f.position / SECTOR] && offset == f.position % SECTOR
    ensures f.position / SLOT < |AllSlots(f)|
    ensures SECTOR * sector + offset + SLOT <= |f.fat.m.Img()|
    ensures SlotOf(f.fat.m.Img(), SECTOR * sector + offset) == AllSlots(f)[f.position / SLOT]
  {
    hide Geometry.Valid, Table, CursorAt, Secs, Content, SlotsFrom;
    ghost var img, secs, pos := f.fat.m.Img(), Secs(f.fat.g, f.Lay()), f.position;
    LaidGood(f.fat.g, img, f.Lay());
    AheadFits(f);
    SlotFirst(f.Bytes(), pos / SLOT);
    SlotInSector(img, secs, pos);
    assert f.Bytes() == Content(img, secs);
  }

  lemma SliceOfSlice(b: seq<byte>, at: nat, n: nat, o: nat, k: nat)
    requires at + n <= |b| && o + k <= n
    ensures b[at..at + n][o..o + k] == b[at + o..at + o + k]
  {
    var l, r := b[at..at + n][o..o + k], b[at + o..at + o + k];
    assert |l| == |r| && forall j :: 0 <= j < k ==> l[j] == r[j];
  }

  lemma SlotInSector(img: seq<byte>, secs: seq<nat>, pos: nat)
    requires OnDevice(secs, |img|) && pos % SLOT == 0 && pos / SECTOR < |secs|
    ensures pos % SECTOR + SLOT <= SECTOR && pos + SLOT <= |Content(img, secs)|
    ensures SECTOR * secs[pos / SECTOR] + pos % SECTOR + SLOT <= |img|
    ensures SlotOf(img, SECTOR * secs[pos / SECTOR] + pos % SECTOR) == SlotOf(Content(img, secs), pos)
  {
    hide Content;
    var sec, off := secs[pos / SECTOR], pos % SECTOR;
    ContentSlice(img, secs, pos / SECTOR, off, SLOT);
    SliceOfSlice(img, SECTOR * sec, SECTOR, off, SLOT);
  }

  // ascii_from_utf16 on `count` units at byte `o` of an entry, into d_name at `at`:
  // 0 at a NUL, 1 at the end of the units, 2 at a unit that is not ASCII.
  method AsciiFromUtf16(name: array<byte>, at: nat, s: Slot, o: nat, count: nat) returns (code: nat)
    requires o + 2 * count <= SLOT
    requires Convert(name[..], at, Units(s, o, count)).why != Outside
    modifies name
    ensures var c := Convert(old(name[..]), at, Units(s, o, count));
      name[..] == c.name && code == match c.why case AtNul => 0 case AtEnd => 1 case _ => 2
  {
    ghost var was, u := name[..], Units(s, o, count);
    var k := 0;
    while k < count
      invariant 0 <= k <= count
      invariant Convert(was, at, u) == Convert(name[..], at + k, u[k..])
    {
      var tmp := Get16(s, o + 2 * k);
      assert u[k..][0] == tmp && u[k..][1..] == u[k + 1..];
      if tmp > 127 {
        return 2;
      }
      ghost var before := name[..];
      var c: byte := tmp;
      name[at + k] := c;
      assert name[..] == before[at + k := c];
      if tmp == 0 {
        return 0;
      }
      k := k + 1;
    }
    return 1;
  }

  // The long-entry branch of fat_readdir.
  method TakeLongEntry(name: array<byte>, csum0: nat, s: Slot) returns (csum: nat)
    requires name.Length == NAME_SIZE && TakeLong(Partial(csum0, name[..], true), s).ok
    modifies name
    ensures TakeLong(Partial(csum0, old(name[..]), true), s) == Partial(csum, name[..], true)
  {
    hide Convert, Units;
    csum := csum0;
    if Ord(s) / LAST_LONG % 2 == 1 {
      forall k | 0 <= k < name.Length { name[k] := 0; }
      assert name[..] == seq(NAME_SIZE, _ => 0);
      csum := LongSum(s);
    }
    if csum != LongSum(s) {
      csum := NO_SUM;
    }
    var i := (Ord(s) % LAST_LONG - 1) * 13;
    var code := AsciiFromUtf16(name, i, s, 1, 5);
    if code == 0 { return; }
    if code == 2 { csum := NO_SUM; }
    code := AsciiFromUtf16(name, i + 5, s, 14, 6);
    if code == 0 { return; }
    if code == 2 { csum := NO_SUM; }
    code := AsciiFromUtf16(name, i + 11, s, 28, 2);
    if code == 2 { csum := NO_SUM; }
  }

  function Later(r: Outcome, k: nat): Outcome {
    if r.Found? then r.(used := r.used + k) else r
  }

  // The end of fat_readdir: the long name collected, or one from the short name.
  method ShowName(name: array<byte>, csum: nat, sname: seq<byte>) returns (fallback: bool)
    requires name.Length == NAME_SIZE && |sname| == 11
    modifies name
    ensures var long := if csum == Checksum(sname) then CString(old(name[..])) else [];
      (fallback <==> long == []) && if fallback then Holds(name[..], DotName(sname)) else CString(name[..]) == long
  {
    var sum := ComputeChecksum(sname);
    fallback := csum != sum || name[0] == 0;
    if fallback {
      FillDotName(name, sname);
    }
  }

  /**
   * fat_readdir.  `name` is d_name; `fallback` says that there is no usable long name and d_name holds
   * one derived from the short name.
   */
  method ReadDir(f: File, name: array<byte>) returns (found: bool, sname: seq<byte>, attr: byte, fallback: bool)
    requires DirHandle(f) && name.Length == NAME_SIZE && name != f.fat.m.buf
    requires f.rootFlag || HasEnd(Ahead(f)) || Decode(Ahead(f), Start(name[..])).Found?
    requires !Decode(Ahead(f), Start(name[..])).Overrun?
    modifies f`position, f`curCluster, f.fat.m, f.fat.m.buf, name
    ensures DirHandle(f) && f.fat.m.Img() == old(f.fat.m.Img())
    ensures match old(Decode(Ahead(f), Start(name[..])))
      case Found(sn, at, long, used) =>
        && found && |sname| == 11 && sname == sn && attr == at && f.position == old(f.position) + SLOT * used
        && (fallback <==> long == []) && (if fallback then Holds(name[..], DotName(sname)) else CString(name[..]) == long)
      case _ => !found
  {
    hide Holds, DotName, TakeLong, Checksum, CString, Data, Secs, Laid, CursorAt, SlotsFrom, DirHandle, Directory, Ahead;
    HandleDir(f);
    HandleShape(f);
    found, sname, attr, fallback := false, [], 0, false;
    ghost var pos, all, start := f.position, Ahead(f), Start(name[..]);
    var csum: nat := NO_SUM;
    ghost var j: nat := 0;
    while true
      invariant j <= |all| && f.position == pos + SLOT * j
      invariant DirHandle(f) && f.fat.m.Shape() && f.fat.m.Img() == old(f.fat.m.Img()) && Ahead(f) == all[j..]
      invariant Decode(all, start) == Later(Decode(all[j..], Partial(csum, name[..], true)), j)
      invariant f.rootFlag || HasEnd(all[j..]) || Decode(all, start).Found?
      decreases |all| - j
    {
      var got, s := NextSlot(f);
      if !got {
        return;
      }
      j := j + 1;
      if s[0] == 0 {
        return;
      }
      if s[0] == DELETED || Attr(s) == ATTR_VOLUME_ID {
      } else if Attr(s) == ATTR_LONG {
        csum := TakeLongEntry(name, csum, s);
      } else {
        found, sname, attr := true, SName(s), Attr(s);
        fallback := ShowName(name, csum, sname);
        return;
      }
    }
  }

  // ---- Finding room -----------------------------------------------------------------------

  // _fat_dir_seek_empty
  method SeekEmpty(f: File, entries: nat)
    requires Directory(f) && entries > 0
    requires f.rootFlag || HasEnd(AllSlots(f)) || HasRun(AllSlots(f), entries)
    modifies f`position, f`curCluster, f.fat.m, f.fat.m.buf
    ensures DirHandle(f) && f.fat.m.Img() == old(f.fat.m.Img())
    ensures old(Sound(f.fat.m, f.fat.g)) || AllSlots(f) != [] ==> Sound(f.fat.m, f.fat.g)
    ensures AllSlots(f) == old(AllSlots(f)) && Room(AllSlots(f), f.position / SLOT, entries)
    ensures f.position == SLOT * Scan(AllSlots(f), 0, 0, entries).0
  {
    hide SlotsFrom, Data, Secs, Laid, CursorAt, Room, Directory, File.Settled, Ahead, AllSlots, HasRun, HasEnd, Sound, Scan;
    HandleShape(f);
    SlotBounds(f);
    NowCanWalk(f, 0, []);
    Rewind(f, 0);
    ghost var all := AllSlots(f);
    ScanEnds(all, entries);
    var pos := ScanSlots(f, entries);
    ScanInside(all, 0, 0, entries);
    NowCanWalk(f, pos, all);
    Rewind(f, pos);
  }

  // The loop of _fat_dir_seek_empty
  method ScanSlots(f: File, entries: nat) returns (pos: nat)
    requires DirHandle(f) && entries > 0 && f.position == 0 && Ahead(f) == AllSlots(f)
    requires f.rootFlag || !Scan(AllSlots(f), 0, 0, entries).1
    modifies f`position, f`curCluster, f.fat.m, f.fat.m.buf
    ensures DirHandle(f) && f.fat.m.Shape() && f.fat.m.Img() == old(f.fat.m.Img()) && AllSlots(f) == old(AllSlots(f))
    ensures AllSlots(f) != [] || old(Sound(f.fat.m, f.fat.g)) ==> Sound(f.fat.m, f.fat.g)
    ensures pos == SLOT * Scan(AllSlots(f), 0, 0, entries).0 && Room(AllSlots(f), pos / SLOT, entries)
  {
    hide SlotsFrom, Data, Secs, Laid, CursorAt, Room, Scanning, Directory, File.Settled, Ahead, AllSlots, Sound, Scan, Live;
    HandleShape(f);
    ghost var img, all := f.fat.m.Img(), AllSlots(f);
    ScanningStart(all, entries);
    pos := 0;
    var i: nat := 0;
    ghost var j: nat := 0;
    while true
      invariant j <= |all| && f.position == SLOT * j && pos + SLOT * i == SLOT * j
      invariant DirHandle(f) && f.fat.m.Shape() && f.fat.m.Img() == img && Ahead(f) == all[j..] && AllSlots(f) == all
      invariant Scanning(all, j, i, entries)
      invariant j > 0 || old(Sound(f.fat.m, f.fat.g)) ==> Sound(f.fat.m, f.fat.g)
      decreases |all| - j
    {
      ScanningNext(all, j, i, entries);
      EndOfRoot(f, all, j, i, entries);
      var got, s := NextSlot(f);
      if !got {
        break;
      }
      if s[0] == 0 {
        break;
      }
      j := j + 1;
      if s[0] == DELETED {
        i := i + 1;
        if i == entries {
          break;
        }
      } else {
        LiveSlot(s);
        i := 0;
        pos := f.position;
      }
    }
  }

  lemma LiveSlot(s: Slot)
    ensures Live(s) <==> s[0] != 0 && s[0] != DELETED
  {
  }

  /** Only the fixed root directory is read to its end. */
  lemma EndOfRoot(f: File, all: seq<Slot>, j: nat, i: nat, n: nat)
    requires Scanning(all, j, i, n) && (f.rootFlag || !Scan(all, 0, 0, n).1)
    ensures f.rootFlag || all[j..] != []
  {
    if j == |all| {
      assert Scan(all, j, i, n).1;
    }
  }

  lemma NowCanWalk(f: File, pos: nat, all: seq<Slot>)
    requires Directory(f) && pos <= SLOT * |all| && (all != [] ==> Sound(f.fat.m, f.fat.g))
    ensures f.CanWalk(pos)
  {
    hide Table, CursorAt, Sound, Geometry.Valid;
  }

  /** A seek to slot boundary `pos` of the directory. */
  method Rewind(f: File, pos: nat)
    requires Directory(f) && pos % SLOT == 0 && pos <= SLOT * |AllSlots(f)| && f.CanWalk(pos)
    modifies f`position, f`curCluster, f.fat.m, f.fat.m.buf
    ensures DirHandle(f) && f.fat.m.Shape() && f.fat.m.Img() == old(f.fat.m.Img()) && f.position == pos
    ensures AllSlots(f) == old(AllSlots(f)) && (pos == 0 ==> Ahead(f) == AllSlots(f))
    ensures old(Sound(f.fat.m, f.fat.g)) ==> Sound(f.fat.m, f.fat.g)
  {
    hide SlotsFrom, Data, Secs, Laid, CursorAt;
    RootLength(f);
    SlotBounds(f);
    var r := f.LSeek(pos, SeekSet);
  }
}
