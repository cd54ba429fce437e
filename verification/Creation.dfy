/** Creating directory entries: the calls of fat_write in _fat_dir_create_file (write.c:307-364). */
module Creation {
  import opened Arithmetic
  import opened Bytes
  import opened Geometry
  import opened FatTable
  import opened FatAccess
  import opened Chains
  import opened ChainOps
  import opened Extents
  import opened Growth
  import opened Layouts
  import opened Writing
  import opened Files
  import opened LongNames
  import opened ShortNames
  import opened Slots
  import opened Filling
  import opened Listing
  import opened DirOps

  // ---- One slot, on images ----------------------------------------------------------------

  /** Slots in a cluster. */
  function Slots16(g: Geometry): nat {
    16 * g.sectorsPerCluster
  }

  lemma SlotTotals(g: Geometry, ch: seq<nat>)
    requires Usable(g, Chained(ch))
    ensures Total(g, Chained(ch)) == SLOT * (|ch| * Slots16(g))
    ensures ch != [] ==> 0 < Slots16(g) <= |ch| * Slots16(g)
  {
    hide ChainSectors;
    assert |ch| * Slots16(g) == 16 * (|ch| * g.sectorsPerCluster);
    if ch != [] { MulMono(1, |ch|, Slots16(g)); }
  }

  /** A slot calls for a cluster exactly when it is the last one. */
  lemma NeededSlot(g: Geometry, ch: seq<nat>, at: nat)
    requires Usable(g, Chained(ch)) && at % SLOT == 0 && at < Total(g, Chained(ch))
    ensures at + SLOT <= Total(g, Chained(ch))
    ensures Needed(g, Chained(ch), at, SLOT) == if at + SLOT < Total(g, Chained(ch)) then 0 else 1
  {
    hide ChainSectors, Index, Secs;
    assert Total(g, Chained(ch)) % SLOT == 0;
    IndexInside(g, ch, at + SLOT);
  }

  /** The chain takes a cluster for the slot if one is needed and there. */
  lemma ClustersTaken(g: Geometry, img: seq<byte>, ch: seq<nat>, img': seq<byte>, ch': seq<nat>, at: nat, s: Slot, n: nat, full: bool)
    requires Stored(g, img, Chained(ch), img', Chained(ch'), at, s, n, full, true)
    requires Usable(g, Chained(ch)) && at % SLOT == 0 && at < Total(g, Chained(ch))
    ensures Laid(g, img, Chained(ch)) && Laid(g, img', Chained(ch')) && |img'| == |img| && g.Valid(|img|)
    ensures n == SLOT && Overwritten(Data(g, img, Chained(ch)), Data(g, img', Chained(ch')), at, s, true)
    ensures at + SLOT <= Total(g, Chained(ch)) && (full <==> at + SLOT == Total(g, Chained(ch)) && Free(g, img) == 0)
    ensures |ch'| == |ch| + if at + SLOT == Total(g, Chained(ch)) && Free(g, img) > 0 then 1 else 0
    ensures Free(g, img') == Free(g, img) - (|ch'| - |ch|)
  {
    hide Geometry.Valid, Table, Mirrored, Content, Growth.Outside, Free, Needed, Overwritten, Data;
    NeededSlot(g, ch, at);
    FrameCount(g, img, ch, img', ch');
    SlotTotals(g, ch);
    SlotTotals(g, ch');
    assert s[..SLOT] == s;
  }

  /** What one slot written does to the slots of a chained directory. */
  lemma ChainStep(g: Geometry, img: seq<byte>, ch: seq<nat>, img': seq<byte>, ch': seq<nat>, at: nat, s: Slot, n: nat, full: bool)
    requires Stored(g, img, Chained(ch), img', Chained(ch'), at, s, n, full, true)
    requires Usable(g, Chained(ch)) && at % SLOT == 0 && at < Total(g, Chained(ch))
    ensures Laid(g, img, Chained(ch)) && Laid(g, img', Chained(ch')) && |img'| == |img| && n == SLOT
    ensures var a, b, step := Data(g, img, Chained(ch)), Data(g, img', Chained(ch')), if full then SECTOR * g.sectorsPerCluster else 0;
      && |a| % SLOT == 0 && |b| % SLOT == 0 && step <= at + SLOT
      && Moved(SlotsFrom(a, 0), at / SLOT, Free(g, img), SlotsFrom(b, 0), (at + SLOT - step) / SLOT, Free(g, img'), s, Slots16(g))
    ensures (ch' != ch ==> Free(g, img) > 0 && !full) && (full ==> Free(g, img') == 0) && Free(g, img') <= Free(g, img)
  {
    hide Stored, Laid, Free, Overwritten, Data, SlotsFrom, Secs, Moved, Geometry.Valid;
    ClustersTaken(g, img, ch, img', ch', at, s, n, full);
    StoredChain(g, img, ch, img', ch', at, s, n, full);
    SlotTotals(g, ch);
    SlotTotals(g, ch');
    assert SLOT * (at / SLOT) == at;
    MovedBy(Data(g, img, Chained(ch)), Data(g, img', Chained(ch')), |ch|, |ch'|, Slots16(g), at / SLOT, s, Free(g, img), Free(g, img'), full);
  }

  /** The same on contents of `n` and `n'` clusters. */
  lemma MovedBy(a: seq<byte>, b: seq<byte>, n: nat, n': nat, c: nat, k: nat, s: Slot, free: nat, free': nat, full: bool)
    requires |a| == SLOT * (n * c) && |b| == SLOT * (n' * c) && 0 < c <= n * c && k < n * c && Overwritten(a, b, SLOT * k, s, true)
    requires full <==> k + 1 == n * c && free == 0
    requires n' == n + (if k + 1 == n * c && free > 0 then 1 else 0) && free' == free - (n' - n)
    ensures |a| % SLOT == 0 && |b| % SLOT == 0 && (full ==> SLOT * c <= SLOT * k + SLOT)
    ensures Moved(SlotsFrom(a, 0), k, free, SlotsFrom(b, 0), (SLOT * k + SLOT - if full then SLOT * c else 0) / SLOT, free', s, c)
  {
    hide Overwritten, SlotsFrom;
    MulSucc(n, c);
    CountSlots(n * c, n' * c, k, c);
    SlotStep(a, b, k, s, true);
    assert Blanks(0) == [];
  }

  lemma CountSlots(x: nat, y: nat, k: nat, c: nat)
    ensures SLOT * x / SLOT == x && SLOT * y / SLOT == y && (SLOT * k + SLOT) / SLOT == k + 1
    ensures k + 1 >= c ==> SLOT * k + SLOT - SLOT * c == SLOT * (k + 1 - c) && (SLOT * k + SLOT - SLOT * c) / SLOT == k + 1 - c
  {
  }

  lemma StoredChain(g: Geometry, img: seq<byte>, ch: seq<nat>, img': seq<byte>, ch': seq<nat>, at: nat, s: Slot, n: nat, full: bool)
    requires Stored(g, img, Chained(ch), img', Chained(ch'), at, s, n, full, true)
    ensures ch <= ch' && Usable(g, Chained(ch')) && (|ch'| == |ch| ==> ch' == ch)
  {
    hide Geometry.Valid, Table, Mirrored, Content, Growth.Outside, Free, Needed, Overwritten;
  }

  /** The fixed root directory takes the slot as far as it reaches. */
  lemma FixedStep(g: Geometry, img: seq<byte>, lay: Layout, img': seq<byte>, lay': Layout, at: nat, s: Slot, n: nat, full: bool)
    requires Stored(g, img, lay, img', lay', at, s, n, full, false) && lay.RootDir?
    requires Usable(g, lay) && at % SLOT == 0 && at <= Total(g, lay)
    ensures Laid(g, img, lay) && Laid(g, img', lay') && |img'| == |img| && lay' == lay && !full
    ensures n == if at < Total(g, lay) then SLOT else 0
    ensures var a, b := Data(g, img, lay), Data(g, img', lay');
      && |a| % SLOT == 0 && |b| == |a| && (at < |a| <==> at / SLOT < |SlotsFrom(a, 0)|)
      && SlotsFrom(b, 0) == if at < |a| then SlotsFrom(a, 0)[at / SLOT := s] else SlotsFrom(a, 0)
  {
    hide Geometry.Valid, Table, Mirrored, Content, Growth.Outside, Free, SlotsFrom;
    StoredExtends(g, img, lay, img', lay', at, s, n, full, false);
    var a, b := Data(g, img, lay), Data(g, img', lay');
    assert Total(g, lay) % SLOT == 0;
    CountSlots(0, 0, at / SLOT, 0);
    if at < |a| {
      assert s[..SLOT] == s;
      FixedSlot(a, b, at, s);
    } else {
      assert s[..0] == [];
      assert b == a;
    }
  }

  lemma FixedSlot(a: seq<byte>, b: seq<byte>, at: nat, s: Slot)
    requires |a| % SLOT == 0 && at % SLOT == 0 && at < |a| == |b| && Overwritten(a, b, at, s, false)
    ensures at / SLOT < |SlotsFrom(a, 0)| && SlotsFrom(b, 0) == SlotsFrom(a, 0)[at / SLOT := s]
  {
    hide Overwritten, SlotsFrom;
    assert SLOT * (at / SLOT) == at && SLOT * (at / SLOT + 1) <= |a|;
    SlotStep(a, b, at / SLOT, s, false);
    assert Blanks(0) == [];
  }

  // ---- One slot, on the handle ------------------------------------------------------------

  /** A directory handle at a slot boundary whose position may be ahead of its cursor. */
  ghost predicate Behind(f: File, slip: nat)
    reads f, f.fat, f.fat.m, f.fat.m.buf
  {
    Directory(f) && f.Running(slip) && f.At(slip) % SLOT == 0 && f.direntSector == 0
  }

  /** Entries can be written: the fixed root directory, or a chain that has not been read to its end, on a
      volume whose clusters are aligned. */
  ghost predicate Writable(f: File, slip: nat)
    reads f, f.fat, f.fat.m, f.fat.m.buf
  {
    && Behind(f, slip) && f.fat.g.sectorsPerCluster >= 1
    && (f.rootFlag || (Aligned(f.fat.g) && f.At(slip) < f.Len()))
  }

  /** The slot under the cursor. */
  ghost function Slot0(f: File, slip: nat): nat
    reads f
  {
    f.At(slip) / SLOT
  }

  // One call of fat_write in _fat_dir_create_file.
  method WriteSlot(f: File, s: Slot, ghost slip: nat) returns (ok: bool, ghost slip': nat)
    requires Writable(f, slip) && (!f.rootFlag ==> f.position + SLOT < U32)
    modifies f, f.fat`lastAlloc, f.fat.m, f.fat.m.buf
    ensures Writable(f, slip') && (f.rootFlag ==> f.Lay() == old(f.Lay()) && slip' == slip == 0)
    ensures f.position == old(f.position) + if ok then SLOT else 0
    ensures !f.rootFlag ==> ok && Moved(old(AllSlots(f)), old(Slot0(f, slip)), old(f.Spare()), AllSlots(f), Slot0(f, slip'), f.Spare(), s, Slots16(f.fat.g))
    ensures f.rootFlag ==> (ok <==> old(Slot0(f, 0)) < |old(AllSlots(f))|) && (ok ==> Slot0(f, 0) == old(Slot0(f, 0)) + 1)
    ensures f.rootFlag ==> AllSlots(f) == if ok then old(AllSlots(f))[old(Slot0(f, 0)) := s] else old(AllSlots(f))
    ensures |f.fat.m.Img()| == old(|f.fat.m.Img()|) && Laid(f.fat.g, f.fat.m.Img(), f.Lay())
    ensures Frame(f.fat.g, old(f.fat.m.Img()), old(f.Lay()), f.fat.m.Img(), f.Lay())
    ensures f.Lay() != old(f.Lay()) ==> old(f.Spare()) > 0 && slip' == slip
    ensures slip' != slip ==> f.Spare() == 0
    ensures !f.rootFlag ==> f.Spare() <= old(f.Spare()) && |old(f.chain)| <= |f.chain|
    ensures ok ==> Sound(f.fat.m, f.fat.g) || (f.fat.g.numFats < 2 && slip' == slip && f.OnNewCluster(old(f.Lay()), slip))
  {
    hide Geometry.Valid, Table, Mirrored, Laid, CursorAt, Secs, Stored, Frame, Content, Overwritten, Free, Needed, Sound, Ready, Total, Slip, SlotsFrom, Moved, File.Running;
    var k;
    HandleShape(f);
    SlotsAre(f);
    ghost var img, lay, at := f.fat.m.Img(), f.Lay(), f.At(slip);
    BeforeWrite(f, slip);
    ghost var full, mid;
    k, full, mid := f.Write(s, slip);
    slip' := f.Slipped(slip, full);
    ok := k == SLOT;
    SlotsAre(f);
    AfterWrite(f, img, lay, at, s, k, full, slip);
    if f.rootFlag {
      AfterFixed(f, img, lay, at, s, k, full, slip);
    } else {
      AfterChained(f, img, lay, at, s, k, full, slip);
    }
  }

  /** The slots are those of the directory's bytes on the disk as seen. */
  lemma SlotsAre(f: File)
    requires Directory(f)
    ensures f.fat.m.Shape() && Laid(f.fat.g, f.fat.m.Img(), f.Lay()) && f.fat.g.Valid(|f.fat.m.Img()|)
    ensures |Data(f.fat.g, f.fat.m.Img(), f.Lay())| % SLOT == 0
    ensures AllSlots(f) == SlotsFrom(Data(f.fat.g, f.fat.m.Img(), f.Lay()), 0)
    ensures f.Spare() == Free(f.fat.g, f.fat.m.Img()) && f.Len() == Total(f.fat.g, f.Lay()) && Usable(f.fat.g, f.Lay())
  {
    hide Data, Secs, Free, Table, SlotsFrom;
    BytesWhole(f);
  }

  lemma BeforeWrite(f: File, slip: nat)
    requires Writable(f, slip) && (!f.rootFlag ==> f.position + SLOT < U32)
    ensures f.Running(slip) && f.DirentSafe() && (!f.rootFlag ==> f.chain != [] && Aligned(f.fat.g) && f.At(slip) < f.Len())
    ensures f.position + SLOT < U32 && f.At(slip) + slip == f.position && f.At(slip) <= Total(f.fat.g, f.Lay())
    ensures (f.size == 0 && f.Lay() != Chained([])) == !f.rootFlag && (f.rootFlag ==> slip == 0)
  {
    hide Geometry.Valid, Table, Secs, Slip, Aligned, ChainSectors;
    f.RunningFacts(slip);
    HandleShape(f);
    LaidSize(f.fat.g, f.fat.m.Img(), f.Lay());
    RootLength(f);
    EmptySize(f.fat.g);
  }

  /** The call has returned: the disk was `img`, the layout `lay` and the cursor at byte `at`. */
  ghost predicate Returned(f: File, img: seq<byte>, lay: Layout, at: nat, s: Slot, k: nat, full: bool, slip: nat)
    reads f, f.fat, f.fat.m, f.fat.m.buf
  {
    && Directory(f) && f.direntSector == 0 && f.Running(f.Slipped(slip, full)) && f.fat.m.Shape() && lay.RootDir? == f.rootFlag
    && Stored(f.fat.g, img, lay, f.fat.m.Img(), f.Lay(), at, s, k, full, !f.rootFlag)
    && Usable(f.fat.g, lay) && Usable(f.fat.g, f.Lay()) && at % SLOT == 0
    && (if f.rootFlag then at <= Total(f.fat.g, lay) && slip == 0 else at < Total(f.fat.g, lay) && Aligned(f.fat.g))
    && f.position == at + slip + k
    && (!f.rootFlag && f.chain != [] ==> f.At(f.Slipped(slip, full)) < Total(f.fat.g, f.Lay()))
  }

  lemma AfterWrite(f: File, img: seq<byte>, lay: Layout, at: nat, s: Slot, k: nat, full: bool, slip: nat)
    requires Returned(f, img, lay, at, s, k, full, slip)
    ensures Laid(f.fat.g, img, lay) && Laid(f.fat.g, f.fat.m.Img(), f.Lay()) && |f.fat.m.Img()| == |img|
    ensures Frame(f.fat.g, img, lay, f.fat.m.Img(), f.Lay()) && Writable(f, f.Slipped(slip, full))
  {
    hide Geometry.Valid, Table, Mirrored, Laid, CursorAt, Secs, Stored, Frame, Data, Free, Needed, Ready, Slip, Aligned;
    StoredFrame(f.fat.g, img, lay, f.fat.m.Img(), f.Lay(), at, s, k, full, !f.rootFlag);
    SlotsAre(f);
    f.RunningFacts(f.Slipped(slip, full));
    StoredExtends(f.fat.g, img, lay, f.fat.m.Img(), f.Lay(), at, s, k, full, !f.rootFlag);
    EmptySize(f.fat.g);
    if f.rootFlag {
      FixedStep(f.fat.g, img, lay, f.fat.m.Img(), f.Lay(), at, s, k, full);
    } else {
      ChainStep(f.fat.g, img, lay.ch, f.fat.m.Img(), f.chain, at, s, k, full);
    }
  }

  lemma AfterFixed(f: File, img: seq<byte>, lay: Layout, at: nat, s: Slot, k: nat, full: bool, slip: nat)
    requires Returned(f, img, lay, at, s, k, full, slip) && f.rootFlag
    ensures Laid(f.fat.g, img, lay) && |Data(f.fat.g, img, lay)| % SLOT == 0
    ensures var all := SlotsFrom(Data(f.fat.g, img, lay), 0);
      && f.Lay() == lay && f.Slipped(slip, full) == slip == 0 && (k == 0 || k == SLOT)
      && (k == SLOT <==> at / SLOT < |all|) && Slot0(f, 0) == at / SLOT + (if k == SLOT then 1 else 0)
      && AllSlots(f) == if k == SLOT then all[at / SLOT := s] else all
  {
    hide Geometry.Valid, Table, Mirrored, Laid, CursorAt, Secs, Stored, Data, Free, Needed, Ready, Slip, SlotsFrom, Aligned;
    StoredFrame(f.fat.g, img, lay, f.fat.m.Img(), f.Lay(), at, s, k, full, false);
    SlotsAre(f);
    FixedStep(f.fat.g, img, lay, f.fat.m.Img(), f.Lay(), at, s, k, full);
  }

  lemma AfterChained(f: File, img: seq<byte>, lay: Layout, at: nat, s: Slot, k: nat, full: bool, slip: nat)
    requires Returned(f, img, lay, at, s, k, full, slip) && !f.rootFlag
    ensures Laid(f.fat.g, img, lay) && |Data(f.fat.g, img, lay)| % SLOT == 0 && lay.Chained? && f.fat.g.Valid(|img|)
    ensures k == SLOT && Moved(SlotsFrom(Data(f.fat.g, img, lay), 0), at / SLOT, Free(f.fat.g, img),
      AllSlots(f), Slot0(f, f.Slipped(slip, full)), f.Spare(), s, Slots16(f.fat.g))
    ensures (f.Lay() != lay ==> Free(f.fat.g, img) > 0 && !full) && (full ==> f.Spare() == 0)
    ensures f.Spare() <= Free(f.fat.g, img) && |lay.ch| <= |f.chain|
  {
    hide Geometry.Valid, Table, Mirrored, Laid, CursorAt, Secs, Stored, Data, Free, Needed, Ready, Slip, SlotsFrom, Moved, Aligned;
    StoredFrame(f.fat.g, img, lay, f.fat.m.Img(), f.Lay(), at, s, k, full, true);
    SlotsAre(f);
    f.RunningFacts(f.Slipped(slip, full));
    StoredExtends(f.fat.g, img, lay, f.fat.m.Img(), f.Lay(), at, s, k, full, true);
    EmptySize(f.fat.g);
    ChainStep(f.fat.g, img, lay.ch, f.fat.m.Img(), f.chain, at, s, k, full);
  }

  lemma StoredFrame(g: Geometry, img: seq<byte>, lay: Layout, img': seq<byte>, lay': Layout,
      pos: nat, d: seq<byte>, n: nat, full: bool, clear: bool)
    requires Stored(g, img, lay, img', lay', pos, d, n, full, clear)
    ensures Laid(g, img, lay) && Laid(g, img', lay') && |img'| == |img| && Frame(g, img, lay, img', lay')
    ensures |Data(g, img, lay)| % SLOT == 0
  {
    hide Geometry.Valid, Table, Mirrored, Data, Frame, Free, Needed, Overwritten, Laid;
  }

  // ---- All slots --------------------------------------------------------------------------

  /** The chain only grows, and not after a failed search. */
  ghost predicate Grown(root: bool, lay0: Layout, slip0: nat, lay: Layout, slip: nat, free: nat) {
    && lay0.RootDir? == lay.RootDir? == root && (slip != slip0 ==> free == 0)
    && (if root then lay == lay0 && slip == slip0 else |lay0.ch| <= |lay.ch|)
  }

  /** The cache after writing: at worst the tag left by a cluster zeroed last. */
  ghost predicate Tagged(f: File, before: Layout, slip: nat, slip': nat)
    reads f, f.fat, f.fat.m, f.fat.m.buf
  {
    Sound(f.fat.m, f.fat.g) || (f.fat.g.numFats < 2 && f.fat.g.sectorsPerCluster >= 1 && slip' == slip && f.OnNewCluster(before, slip))
  }

  // The calls of fat_write in _fat_dir_create_file, one per entry.
  method WriteSlots(f: File, slots: seq<Slot>, ghost slip: nat) returns (ok: bool, ghost slip': nat)
    requires Writable(f, slip) && (!f.rootFlag ==> f.position + SLOT * |slots| < U32)
    modifies f, f.fat`lastAlloc, f.fat.m, f.fat.m.buf
    ensures Writable(f, slip')
    ensures AllSlots(f) == Filled(f.rootFlag, old(AllSlots(f)), old(Slot0(f, slip)), old(f.Spare()), slots, Slots16(f.fat.g))
    ensures ok <==> !f.rootFlag || old(Slot0(f, slip)) + |slots| <= |old(AllSlots(f))|
    ensures ok ==> f.position == old(f.position) + SLOT * |slots|
    ensures ok && slots != [] ==> Tagged(f, old(f.Lay()), slip, slip')
    ensures |f.fat.m.Img()| == old(|f.fat.m.Img()|) && Laid(f.fat.g, f.fat.m.Img(), f.Lay())
    ensures Frame(f.fat.g, old(f.fat.m.Img()), old(f.Lay()), f.fat.m.Img(), f.Lay())
  {
    hide Geometry.Valid, Table, Laid, Secs, Frame, Sound, Behind, Underway, Filled, AllSlots, File.Spare, Slot0, Moved, Grown, Tagged;
    WritableFacts(f, slip);
    ghost var img, lay, all0, k0, free0, pos := f.fat.m.Img(), f.Lay(), AllSlots(f), Slot0(f, slip), f.Spare(), f.position;
    ghost var root, c := f.rootFlag, Slots16(f.fat.g);
    SetOut(root, all0, k0, free0, slots, c);
    NothingGrown(f, slip);
    SameFrame(f.fat.g, img, lay);
    var i := 0;
    slip' := slip;
    while i < |slots|
      invariant 0 <= i <= |slots| && f.position == pos + SLOT * i && Writable(f, slip') && Directory(f) && f.fat.m.Shape()
      invariant Underway(root, all0, k0, free0, slots, i, AllSlots(f), Slot0(f, slip'), f.Spare(), c)
      invariant Grown(root, lay, slip, f.Lay(), slip', f.Spare())
      invariant i > 0 ==> Tagged(f, lay, slip, slip')
      invariant |f.fat.m.Img()| == |img| && Laid(f.fat.g, img, lay) && Laid(f.fat.g, f.fat.m.Img(), f.Lay())
      invariant Frame(f.fat.g, img, lay, f.fat.m.Img(), f.Lay())
    {
      ghost var img1, lay1, all1, k1, free1, slip1 := f.fat.m.Img(), f.Lay(), AllSlots(f), Slot0(f, slip'), f.Spare(), slip';
      ok, slip' := WriteSlot(f, slots[i], slip');
      WritableFacts(f, slip');
      FrameTrans(f.fat.g, img, lay, img1, lay1, f.fat.m.Img(), f.Lay());
      if !ok {
        Arrived(root, all0, k0, free0, slots, i, all1, k1, free1, c);
        return;
      }
      OneMoved(root, all0, k0, free0, slots, i, all1, k1, free1, AllSlots(f), Slot0(f, slip'), f.Spare(), c);
      NextGrown(f, lay, slip, lay1, slip1, free1, slip');
      i := i + 1;
    }
    ok := true;
    Arrived(root, all0, k0, free0, slots, i, AllSlots(f), Slot0(f, slip'), f.Spare(), c);
  }

  lemma SameFrame(g: Geometry, img: seq<byte>, lay: Layout)
    requires Laid(g, img, lay)
    ensures Frame(g, img, lay, img, lay)
  {
    hide Geometry.Valid, Table;
  }

  lemma WritableFacts(f: File, slip: nat)
    requires Writable(f, slip)
    ensures Directory(f) && f.fat.m.Shape() && Laid(f.fat.g, f.fat.m.Img(), f.Lay()) && f.fat.g.sectorsPerCluster >= 1
    ensures f.rootFlag ==> slip == 0 && Slot0(f, slip) <= |AllSlots(f)|
    ensures f.Lay().RootDir? == f.rootFlag
  {
    hide Geometry.Valid, Table, Secs, SlotsFrom, Data;
    f.RunningFacts(slip);
    SlotBounds(f);
    RootLength(f);
  }

  lemma NothingGrown(f: File, slip: nat)
    requires Writable(f, slip)
    ensures Directory(f) && Grown(f.rootFlag, f.Lay(), slip, f.Lay(), slip, f.Spare())
  {
    hide File.Spare;
  }

  lemma NextGrown(f: File, lay0: Layout, slip0: nat, lay: Layout, slip: nat, free: nat, slip': nat)
    requires Directory(f) && Grown(f.rootFlag, lay0, slip0, lay, slip, free) && f.fat.g.sectorsPerCluster >= 1
    requires if f.rootFlag then f.Lay() == lay && slip' == slip else lay.Chained? && |lay.ch| <= |f.chain| && f.Spare() <= free
    requires (f.Lay() != lay ==> free > 0 && slip' == slip) && (slip' != slip ==> f.Spare() == 0)
    requires Sound(f.fat.m, f.fat.g) || (f.fat.g.numFats < 2 && slip' == slip && f.OnNewCluster(lay, slip))
    ensures Grown(f.rootFlag, lay0, slip0, f.Lay(), slip', f.Spare()) && Tagged(f, lay0, slip0, slip')
  {
    hide Sound, File.Spare, Directory;
  }

  // ---- Creating an entry ------------------------------------------------------------------

  /** The search for `n` slots ends inside a chained directory, whose clusters are aligned and whose bytes
      32 bits count. */
  ghost predicate Searchable(f: File, n: nat)
    requires Directory(f)
    reads f, f.fat, f.fat.m, f.fat.m.buf
  {
    f.rootFlag || (
      && f.fat.g.sectorsPerCluster >= 1 && Aligned(f.fat.g) && (HasEnd(AllSlots(f)) || HasRun(AllSlots(f), n))
      && SLOT * (|AllSlots(f)| + n) < U32)
  }

  // The search for room and the entries written there, in _fat_dir_create_file
  method CreateEntry(f: File, slots: seq<Slot>) returns (ok: bool)
    requires Directory(f) && f.direntSector == 0 && slots != [] && Searchable(f, |slots|)
    modifies f, f.fat`lastAlloc, f.fat.m, f.fat.m.buf
    ensures Directory(f)
    ensures var all, k, n := old(AllSlots(f)), old(Scan(AllSlots(f), 0, 0, |slots|).0), |slots|;
      && Room(all, k, n) && AllSlots(f) == Filled(f.rootFlag, all, k, old(f.Spare()), slots, Slots16(f.fat.g))
      && (ok <==> !f.rootFlag || k + n <= |all|)
      && (Placed(all, AllSlots(f), k, slots) <==> Fits(f.rootFlag, all, k, old(f.Spare()), n, Slots16(f.fat.g)))
      && (!f.rootFlag ==> k < |all| && 0 < Slots16(f.fat.g) <= |all|)
  {
    hide Room, Directory, AllSlots, HasRun, HasEnd, Sound, File.Spare, Scan, Placed, Filled, Fits, Writable, Frame, Tagged, Geometry.Valid, Table, File.Settled;
    SpareImg(f);
    ghost var all, k, free := AllSlots(f), Scan(AllSlots(f), 0, 0, |slots|).0, f.Spare();
    SeekEmpty(f, |slots|);
    SpareImg(f);
    RoomFits(f, slots);
    ghost var slip;
    ok, slip := WriteSlots(f, slots, 0);
    FilledIff(f.rootFlag, all, k, free, slots, Slots16(f.fat.g));
    WritableFacts(f, slip);
  }

  lemma SpareImg(f: File)
    requires Directory(f)
    ensures f.Placed() && f.fat.m.Shape() && f.fat.g.Valid(|f.fat.m.Img()|) && f.Spare() == Free(f.fat.g, f.fat.m.Img())
  {
    hide Free, Table;
  }

  /** Where the search stopped, entries can be written. */
  lemma RoomFits(f: File, slots: seq<Slot>)
    requires DirHandle(f) && slots != [] && f.direntSector == 0 && Searchable(f, |slots|)
    requires f.position == SLOT * Scan(AllSlots(f), 0, 0, |slots|).0
    ensures Writable(f, 0) && Slot0(f, 0) == Scan(AllSlots(f), 0, 0, |slots|).0 && (!f.rootFlag ==> f.position + SLOT * |slots| < U32)
    ensures if f.rootFlag then Slot0(f, 0) <= |AllSlots(f)| else Slot0(f, 0) < |AllSlots(f)| && 0 < Slots16(f.fat.g) <= |AllSlots(f)|
  {
    hide SlotsFrom, Data, Secs, Laid, CursorAt, HasRun, HasEnd, Scan;
    RootLength(f);
    SlotBounds(f);
    AheadFits(f);
    HandleRuns(f);
    ScanEnds(AllSlots(f), |slots|);
    ScanInside(AllSlots(f), 0, 0, |slots|);
    if !f.rootFlag {
      SlotTotals(f.fat.g, f.chain);
    }
  }

  lemma HandleRuns(f: File)
    requires DirHandle(f) && f.direntSector == 0
    ensures Behind(f, 0) && f.fat.g.sectorsPerCluster >= 1
  {
    hide Geometry.Valid, Table, CursorAt, Secs;
    HandleShape(f);
    LaidUsable(f.fat.g, f.fat.m.Img(), f.Lay());
    NoSlip(f.fat.g);
  }

  /**
   * A creation, from the search for room to the last slot.  Every slot in use stays, and the entries are
   * in place, if and only if they end inside the directory and what it can grow to; then the listing is
   * the old one with the new name in it if and only if no long name changes hands.  In a chained directory
   * entries that do not fit overwrite its last cluster, and nothing is reported.
   */
  method CreateFile(f: File, name: seq<byte>, mem: seq<byte>, short: Slot, ghost junk: seq<byte>) returns (ok: bool)
    requires Directory(f) && f.direntSector == 0 && NameInMemory(name, mem) && ShortSlot(short)
    requires EndsCleanly(AllSlots(f)) && Searchable(f, |name| / 13 + 2) && |junk| == NAME_SIZE
    modifies f, f.fat`lastAlloc, f.fat.m, f.fat.m.buf
    ensures Directory(f)
    ensures var all, k, n, w := old(AllSlots(f)), old(Scan(AllSlots(f), 0, 0, |name| / 13 + 2).0), |name| / 13 + 2, EntrySlots(name, mem, short);
      var fits := Fits(f.rootFlag, all, k, old(f.Spare()), n, Slots16(f.fat.g));
      && (ok <==> !f.rootFlag || fits) && (Created(all, AllSlots(f), k, w) <==> fits)
      && (!fits && !f.rootFlag ==> Over(AllSlots(f), Most(all, old(f.Spare()), Slots16(f.fat.g)), k, w, Slots16(f.fat.g)))
      && (fits && After(all[..k], Start(junk)).ok ==>
            (Inserted(all, AllSlots(f), k, Name(SName(short), Attr(short), name), Start(junk)) <==> !Lends(all[k..], After(all[..k], Start(junk)))))
  {
    hide Slots16, Directory, AllSlots, Searchable, Scan, EndsCleanly, NewEntry, Placed, Created, Inserted, After, File.Spare, NameInMemory, EntrySlots, Filled, Lends, Over, ShortSlot;
    var slots := EntrySlots(name, mem, short);
    NameEntry(name, mem, short);
    SpareImg(f);
    ghost var all, k, free, c := AllSlots(f), Scan(AllSlots(f), 0, 0, |slots|).0, f.Spare(), Slots16(f.fat.g);
    ok := CreateEntry(f, slots);
    FilledSize(f.rootFlag, all, k, free, slots, c);
    if Fits(f.rootFlag, all, k, free, |slots|, c) {
      ListedCreate(all, AllSlots(f), k, slots);
      if After(all[..k], Start(junk)).ok {
        NamesCreate(all, AllSlots(f), k, name, mem, short, junk);
      }
    } else {
      NotCreated(all, AllSlots(f), k, slots);
      if !f.rootFlag { FilledOver(all, k, free, slots, c); }
    }
  }

  lemma NotCreated(a: seq<Slot>, b: seq<Slot>, k: nat, w: seq<Slot>)
    requires k + |w| > |b|
    ensures !Created(a, b, k, w)
  {
  }

  // ---- Creating an entry and reading it back ----------------------------------------------

  /** What a reader started at slot `k` finds without leaving the directory or d_name. */
  ghost predicate Readable(root: bool, slots: seq<Slot>, k: nat, junk: seq<byte>) {
    && k <= |slots| && |junk| == NAME_SIZE
    && (root || HasEnd(slots[k..]) || Decode(slots[k..], Start(junk)).Found?) && !Decode(slots[k..], Start(junk)).Overrun?
  }

  /** The answer of fat_readdir over `tail`. */
  ghost predicate Answered(tail: seq<Slot>, junk: seq<byte>, found: bool, sname: seq<byte>, attr: byte, fallback: bool, name: seq<byte>)
    requires |junk| == NAME_SIZE
  {
    match Decode(tail, Start(junk))
    case Found(sn, at, long, _) =>
      && found && |sname| == 11 && sname == sn && attr == at
      && (fallback <==> long == []) && (if fallback then Holds(name, DotName(sname)) else CString(name) == long)
    case _ => !found
  }

  // fat_lseek, then fat_readdir
  method ReadAt(f: File, pos: nat, dname: array<byte>) returns (found: bool, sname: seq<byte>, attr: byte, fallback: bool)
    requires Directory(f) && pos % SLOT == 0 && f.CanWalk(pos) && dname.Length == NAME_SIZE && dname != f.fat.m.buf
    requires Readable(f.rootFlag, AllSlots(f), pos / SLOT, dname[..])
    modifies f`position, f`curCluster, f.fat.m, f.fat.m.buf, dname
    ensures Directory(f) && AllSlots(f) == old(AllSlots(f))
    ensures Answered(AllSlots(f)[pos / SLOT..], old(dname[..]), found, sname, attr, fallback, dname[..])
  {
    hide Holds, DotName, Geometry.Valid, Table, Laid, CursorAt, Secs, Data, Decode, SlotsFrom, CString, Sound, Ready, File.Settled;
    HandleShape(f);
    SlotBounds(f);
    assert SLOT * (pos / SLOT) == pos;
    Rewind(f, pos);
    AheadIs(f);
    found, sname, attr, fallback := ReadDir(f, dname);
    HandleDir(f);
  }

  /**
   * The entries of a name, written at a directory's position and read back from there: fat_readdir finds
   * what the slots now there say, and that is the name, whatever d_name held before, if the entries fit.
   * What is left out is a stale tag met on the way back, and a reader that leaves the directory.
   */
  method CreateAndRead(f: File, name: seq<byte>, mem: seq<byte>, short: Slot, dname: array<byte>)
    returns (ok: bool, found: bool, sname: seq<byte>, attr: byte, fallback: bool)
    requires DirHandle(f) && Writable(f, 0) && NameInMemory(name, mem) && ShortSlot(short)
    requires !f.rootFlag ==> f.position + SLOT * (|name| / 13 + 2) < U32
    requires dname.Length == NAME_SIZE && dname != f.fat.m.buf
    requires f.EndsOnNew(f.position, SLOT * (|name| / 13 + 2)) ==> f.position < f.fat.g.sectorsPerCluster * SECTOR
    requires var k, n, c := Slot0(f, 0), |name| / 13 + 2, Slots16(f.fat.g);
      || Fits(f.rootFlag, AllSlots(f), k, f.Spare(), n, c)
      || Readable(f.rootFlag, Filled(f.rootFlag, AllSlots(f), k, f.Spare(), EntrySlots(name, mem, short), c), k, dname[..])
    modifies f, f.fat`lastAlloc, f.fat.m, f.fat.m.buf, dname
    ensures Directory(f)
    ensures var k, c := old(Slot0(f, 0)), Slots16(f.fat.g);
      && AllSlots(f) == Filled(f.rootFlag, old(AllSlots(f)), k, old(f.Spare()), EntrySlots(name, mem, short), c)
      && (ok <==> !f.rootFlag || Fits(f.rootFlag, old(AllSlots(f)), k, old(f.Spare()), |name| / 13 + 2, c))
      && (ok ==> k <= |AllSlots(f)| && Answered(AllSlots(f)[k..], old(dname[..]), found, sname, attr, fallback, dname[..]))
      && (Fits(f.rootFlag, old(AllSlots(f)), k, old(f.Spare()), |name| / 13 + 2, c) ==>
            found && sname == SName(short) && attr == Attr(short) && !fallback && CString(dname[..]) == name)
  {
    hide Geometry.Valid, Table, Laid, Secs, Frame, Decode, LongSlots, Checksum, AllSlots, CString, File.Spare, Sound, Ready, File.Settled;
    hide Slots16, ShortSlot, Filled, Readable, EntrySlots, NameInMemory, Writable, Holds, DotName, Directory;
    found, sname, attr, fallback := false, [], 0, false;
    var slots := EntrySlots(name, mem, short);
    var pos := f.position;
    WritableFacts(f, 0);
    SpareImg(f);
    ghost var lay, all, k, free, c, junk := f.Lay(), AllSlots(f), Slot0(f, 0), f.Spare(), Slots16(f.fat.g), dname[..];
    SlotInside(f);
    ghost var slip;
    ok, slip := WriteSlots(f, slots, 0);
    WritableFacts(f, slip);
    FilledSize(f.rootFlag, all, k, free, slots, c);
    if Fits(f.rootFlag, all, k, free, |slots|, c) {
      EntryFound(f.rootFlag, all, k, free, name, mem, short, c, junk);
    }
    if !ok {
      return;
    }
    WalkBack(f, lay, pos, SLOT * |slots|, slip);
    found, sname, attr, fallback := ReadAt(f, pos, dname);
  }

  /** Entries that fit are found. */
  lemma EntryFound(root: bool, all: seq<Slot>, k: nat, free: nat, name: seq<byte>, mem: seq<byte>, short: Slot, c: nat, junk: seq<byte>)
    requires if root then k <= |all| else k < |all| && 0 < c <= |all|
    requires NameInMemory(name, mem) && ShortSlot(short) && |junk| == NAME_SIZE && Fits(root, all, k, free, |name| / 13 + 2, c)
    ensures var b := Filled(root, all, k, free, EntrySlots(name, mem, short), c);
      && Readable(root, b, k, junk) && name != []
      && Decode(b[k..], Start(junk)) == Found(SName(short), Attr(short), name, |name| / 13 + 2)
  {
    hide Filled, Decode, LongSlots, Checksum, Fits, ShortSlot;
    var w := EntrySlots(name, mem, short);
    var b := Filled(root, all, k, free, w, c);
    FilledIff(root, all, k, free, w, c);
    PlacedTail(all, b, k, w);
    RoundTrip(name, mem, short, b[k + |w|..], junk);
  }

  lemma PlacedTail(a: seq<Slot>, b: seq<Slot>, k: nat, w: seq<Slot>)
    requires Placed(a, b, k, w)
    ensures k + |w| <= |b| && b[k..] == w + b[k + |w|..]
  {
  }

  /** A handle's slot is one of the directory's, or the end of the fixed root. */
  lemma SlotInside(f: File)
    requires Writable(f, 0) && DirHandle(f)
    ensures f.direntSector == 0 && (!f.rootFlag ==> f.size == 0)
    ensures f.position == SLOT * Slot0(f, 0) && f.position % SLOT == 0 && f.position / SLOT == Slot0(f, 0)
    ensures if f.rootFlag then Slot0(f, 0) <= |AllSlots(f)| else Slot0(f, 0) < |AllSlots(f)| && 0 < Slots16(f.fat.g) <= |AllSlots(f)|
  {
    hide SlotsFrom, Data, Secs, Laid, CursorAt;
    RootLength(f);
    SlotBounds(f);
    AheadFits(f);
    if !f.rootFlag {
      SlotTotals(f.fat.g, f.chain);
    }
  }

  /** The seek back meets a stale tag only where that was left out. */
  lemma WalkBack(f: File, lay: Layout, pos: nat, len: nat, slip: nat)
    requires f.fat.g.sectorsPerCluster >= 1 && Tagged(f, lay, 0, slip) && f.position == pos + len
    requires lay.Chained? && f.fat.g.numFats < 2 && AtClusterEnd(f.fat.g, |lay.ch|, pos + len) ==> pos < f.fat.g.sectorsPerCluster * SECTOR
    ensures f.CanWalk(pos)
  {
    hide Sound, AtClusterEnd;
    if !Sound(f.fat.m, f.fat.g) {
      NewClusterEnd(f.fat.g, |lay.ch|, |f.chain| - 1, f.position);
    }
  }
}
