/** Seeking, reading and writing files (fat_core.c, write.c). */
module Files {
  import opened Arithmetic
  import opened Bytes
  import opened Geometry
  import opened Cache
  import opened FatTable
  import opened FatAccess
  import opened Chains
  import opened ChainOps
  import opened Extents
  import opened Growth
  import opened Layouts
  import opened Writing

  datatype Whence = SeekSet | SeekCur | SeekEnd | SeekOther   // any other value

  function Min(a: nat, b: nat): nat { if a < b then a else b }

  /** What the comparison with a known size leaves of `want`, the sum wrapping on 32 bits. */
  function Clipped(size: nat, position: nat, want: nat): (r: nat)
    ensures r <= want
  {
    if size != 0 && (position + want) % U32 > size then (if size >= position then Min(want, size - position) else 0) else want
  }

  /** The clip, case by case. */
  lemma ClippedCases(size: nat, position: nat, want: nat)
    requires position < U32
    ensures size == 0 ==> Clipped(size, position, want) == want
    ensures size != 0 && position + want < U32 && position <= size ==> Clipped(size, position, want) == Min(want, size - position)
    ensures size != 0 && size < position && size < position + want < U32 ==> Clipped(size, position, want) == 0
    ensures size != 0 && U32 <= position + want <= U32 + size && position + want < 2 * U32 ==> Clipped(size, position, want) == want
    ensures size != 0 && U32 + size < position + want < 2 * U32 ==> Clipped(size, position, want) == if position <= size then size - position else 0
  {
  }

  /** Without a wrap the size bounds what is read. */
  lemma ClippedRoot(size: nat, position: nat, want: nat)
    requires position + want < U32 && position <= size && size > 0
    ensures position + Clipped(size, position, want) <= size
  {
  }

  /** A known size bounds the position. */
  function Bounded(size: nat, off: nat): nat {
    if size == 0 || off <= size then off else size
  }

  /** Where a seek ends up: at the offset, or so many bytes behind the position or the size, or, with the
      32-bit offset of a negative number, so many bytes before them. */
  ghost predicate Sought(size: nat, position: nat, offset: nat, whence: Whence, r: nat) {
    && (whence.SeekSet? ==> r == Bounded(size, offset))
    && (whence.SeekCur? && position + offset < U32 ==> r == Bounded(size, position + offset))
    && (whence.SeekCur? && offset < U32 && U32 - offset <= position < U32 ==> r == Bounded(size, position - (U32 - offset)))
    && (whence.SeekEnd? && size + offset < U32 ==> r == if size != 0 then size else offset)
    && (whence.SeekEnd? && offset < U32 && U32 - offset <= size < U32 ==> r == size - (U32 - offset))
  }

  /** struct fat_file_handle; `chain` is the cluster chain the handle walks. */
  class File {
    const fat: Volume
    const rootFlag: bool          // FAT12/16 root directory: consecutive sectors, not a chain
    const isAsync: bool           // O_ASYNC
    const direntSector: nat       // 0 for directories
    const direntOffset: nat
    var size: nat
    var firstCluster: nat
    var position: nat
    var curCluster: nat
    ghost var chain: seq<nat>

    // _fat_file_root on FAT12 and FAT16
    constructor Root(fat: Volume, first: nat, sectors: nat)
      requires fat.Valid() && Laid(fat.g, fat.m.Img(), RootDir(first, sectors))
      ensures Valid() && Sized() && rootFlag && this.fat == fat && size == sectors * SECTOR && position == 0
      ensures firstCluster == first
    {
      CacheReady(fat.m, fat.g);
      this.fat := fat;
      rootFlag, isAsync, direntSector, direntOffset := true, false, 0, 0;
      size, firstCluster, position, curCluster := sectors * SECTOR, first, 0, first;
      chain := [];
    }

    // _fat_file_init, and _fat_file_root on FAT32; `ch` is the chain found from `first`.
    constructor FromEntry(fat: Volume, first: nat, size: nat, sector: nat, offset: nat, isAsync: bool, ghost ch: seq<nat>)
      requires fat.Valid() && Laid(fat.g, fat.m.Img(), Chained(ch))
      requires first == if ch == [] then 0 else ch[0]
      requires size <= SECTOR * (|ch| * fat.g.sectorsPerCluster)
      ensures Valid() && Sized() && !rootFlag && this.fat == fat && chain == ch && this.size == size && position == 0
      ensures direntSector == sector && direntOffset == offset && this.isAsync == isAsync
    {
      CacheReady(fat.m, fat.g);
      this.fat := fat;
      this.rootFlag, this.isAsync, direntSector, direntOffset := false, isAsync, sector, offset;
      this.size, firstCluster, position, curCluster := size, first, 0, first;
      chain := ch;
    }

    ghost function Lay(): Layout
      reads this
    {
      if rootFlag then RootDir(firstCluster, size / SECTOR) else Chained(chain)
    }

    /** The handle names a real file of the volume, and the cache is fit for its data; nothing is
        said of the cursor. */
    ghost predicate Placed()
      reads this, fat, fat.m, fat.m.buf
    {
      && Ready(fat.m, fat.g) && SearchFrom(fat.lastAlloc, fat.g.clusterCount) && Laid(fat.g, fat.m.Img(), Lay())
      && (if rootFlag then size % SECTOR == 0 else firstCluster == if chain == [] then 0 else chain[0])
    }

    /** The recorded size is no more than the clusters hold. */
    ghost predicate Sized()
      reads this, fat
    {
      rootFlag || size <= SECTOR * (|chain| * fat.g.sectorsPerCluster)
    }

    /** The position less `slip`: where the cursor is, as far as sectors and offsets go. */
    ghost function At(slip: nat): nat
      reads this
    {
      if slip <= position then position - slip else 0
    }

    /** The position may have run ahead of the cursor by whole clusters. */
    ghost predicate Lag(slip: nat)
      requires fat.g.sectorsPerCluster >= 1
      reads this, fat
    {
      slip <= position && Slip(fat.g, slip) && (slip > 0 ==> !rootFlag && chain != [])
    }

    /** The cursor is on the cluster of the position, or of one `slip` bytes before it: a write that finds
        no cluster leaves the position at the end and the cursor on the last cluster. */
    ghost predicate Running(slip: nat)
      reads this, fat, fat.m, fat.m.buf
    {
      Placed() && Lag(slip) && CursorAt(fat.g, Lay(), At(slip), curCluster)
    }

    /** The cursor is on the position's cluster. */
    ghost predicate Settled()
      reads this, fat, fat.m, fat.m.buf
    {
      Placed() && CursorAt(fat.g, Lay(), position, curCluster)
    }

    /** And table lookups meet no stale tag. */
    ghost predicate Valid()
      reads this, fat, fat.m, fat.m.buf
    {
      Settled() && Sound(fat.m, fat.g)
    }

    ghost function SecList(): seq<nat>
      requires Placed()
      reads this, fat, fat.m, fat.m.buf
    {
      Secs(fat.g, Lay())
    }

    ghost function Len(): nat
      requires Placed()
      reads this, fat, fat.m, fat.m.buf
    {
      SECTOR * |SecList()|
    }

    /** The file's bytes, to the end of its last cluster. */
    ghost function Bytes(): (d: seq<byte>)
      requires Placed()
      reads this, fat, fat.m, fat.m.buf
      ensures |d| == Len()
    {
      Data(fat.g, fat.m.Img(), Lay())
    }

    /** The bytes the file can come to hold. */
    ghost function Most(): nat
      requires Placed()
      reads this, fat, fat.m, fat.m.buf
    {
      ReadyShape(fat.m, fat.g);
      Capacity(fat.g, fat.m.Img(), Lay())
    }

    /** The clusters a search can still find. */
    ghost function Spare(): nat
      requires Placed()
      reads this, fat, fat.m, fat.m.buf
    {
      ReadyShape(fat.m, fat.g);
      Free(fat.g, fat.m.Img())
    }

    /** Where a seek goes: 32-bit offsets wrap, and a known size bounds the position. */
    function Target(offset: nat, whence: Whence): nat
      reads this
    {
      var off := match whence
        case SeekSet => offset
        case SeekCur => (offset + position) % U32
        case SeekEnd => (offset + size) % U32
        case SeekOther => position;
      if size != 0 && off > size then size else off
    }

    lemma TargetCases(offset: nat, whence: Whence)
      ensures Sought(size, position, offset, whence, Target(offset, whence))
    {
    }

    /** The first table lookup of a seek to `target`, if it makes any, meets no stale tag. */
    ghost predicate CanWalk(target: nat)
      reads this, fat, fat.m, fat.m.buf
    {
      rootFlag || target < fat.g.sectorsPerCluster * SECTOR || Sound(fat.m, fat.g) || fat.m.FreshFor(EntrySector(fat.g, 0, firstCluster))
    }

    // The loop of fat_lseek: follow the chain for every whole cluster before `target`.
    method Walk(target: nat)
      requires Ready(fat.m, fat.g) && Laid(fat.g, fat.m.Img(), Chained(chain)) && position == target
      requires curCluster == firstCluster == (if chain == [] then 0 else chain[0]) && target <= Total(fat.g, Chained(chain))
      requires !rootFlag && CanWalk(target)
      modifies this`curCluster, fat.m, fat.m.buf
      ensures Ready(fat.m, fat.g) && fat.m.Img() == old(fat.m.Img()) && (old(fat.m.Coherent()) ==> fat.m.Coherent())
      ensures CursorAt(fat.g, Chained(chain), position, curCluster)
      ensures if target < fat.g.sectorsPerCluster * SECTOR then old(Sound(fat.m, fat.g)) ==> Sound(fat.m, fat.g) else fat.m.Coherent()
    {
      hide Geometry.Valid, Table, IsChain, ChainSectors, Product, Sound, Ready;
      ReadyShape(fat.m, fat.g);
      var off: nat := target;
      ghost var j: nat, base: nat := 0, 0;
      ProductZero(fat.g.sectorsPerCluster * SECTOR);
      while off >= fat.g.sectorsPerCluster * SECTOR
        invariant fat.m.Shape() && fat.g.Valid(|fat.m.dev|) && fat.m.Img() == old(fat.m.Img()) && |fat.m.dev| == old(|fat.m.dev|)
        invariant if j > 0 then fat.m.Coherent() else
          && curCluster == firstCluster && off == target && CanWalk(target) && Ready(fat.m, fat.g)
          && (old(Sound(fat.m, fat.g)) ==> Sound(fat.m, fat.g)) && (old(fat.m.Coherent()) ==> fat.m.Coherent())
        invariant off + base == position && Product(j, fat.g.sectorsPerCluster * SECTOR, base)
        invariant j <= |chain|
        invariant curCluster == if chain == [] then 0 else if j < |chain| then chain[j] else fat.g.Eoc()
        decreases off
      {
        LinkAt(fat.g, fat.m.Img(), chain, j);
        SeekStep(|chain|, fat.g.sectorsPerCluster, position, base, j);
        CacheReady(fat.m, fat.g);
        curCluster := GetNextCluster(fat.m, fat.g, curCluster);
        off := off - fat.g.sectorsPerCluster * SECTOR;
        j, base := j + 1, base + fat.g.sectorsPerCluster * SECTOR;
      }
      CacheReady(fat.m, fat.g);
      SeekFound(fat.g.sectorsPerCluster, position, base, j);
    }

    // fat_lseek.  A `whence` it does not know puts the cursor back and leaves the position.
    method LSeek(offset: nat, whence: Whence) returns (r: nat)
      requires Placed() && (whence.SeekOther? || (Target(offset, whence) <= Len() && CanWalk(Target(offset, whence))))
      modifies this`position, this`curCluster, fat.m, fat.m.buf
      ensures Placed() && fat.m.Img() == old(fat.m.Img()) && (old(fat.m.Coherent()) ==> fat.m.Coherent())
      ensures old(Sound(fat.m, fat.g)) ==> Sound(fat.m, fat.g)
      ensures !whence.SeekOther? ==> Settled() && r == position == old(Target(offset, whence))
      ensures !whence.SeekOther? ==> Sought(size, old(position), offset, whence, r)
      ensures whence.SeekOther? ==> r == U32 - 1 && position == old(position)
      ensures whence.SeekOther? && position <= Len() ==> (Settled() <==> rootFlag || position < fat.g.sectorsPerCluster * SECTOR)
    {
      hide Geometry.Valid, Table, IsChain, Secs, Sound, Ready, Sought;
      ReadyShape(fat.m, fat.g);
      CacheReady(fat.m, fat.g);
      TargetCases(offset, whence);
      curCluster := firstCluster;
      if whence.SeekOther? {
        LaidUsable(fat.g, fat.m.Img(), Lay());
        if position <= Len() {
          FirstCursor(fat.g, fat.m.Img(), Lay(), position, firstCluster);
        }
        return U32 - 1;
      }
      r := Target(offset, whence);
      position := r;
      if !rootFlag {
        Walk(r);
        ReadyShape(fat.m, fat.g);
        CacheReady(fat.m, fat.g);
      }
    }

    // _fat_file_sector_offset
    method SectorOffset(ghost slip: nat) returns (sector: nat, offset: nat)
      requires Usable(fat.g, Lay()) && Lag(slip)
      requires CursorAt(fat.g, Lay(), At(slip), curCluster) && At(slip) < Total(fat.g, Lay())
      ensures At(slip) / SECTOR < |Secs(fat.g, Lay())|
      ensures sector == Secs(fat.g, Lay())[At(slip) / SECTOR] && offset == At(slip) % SECTOR
    {
      hide Secs, Slip;
      CursorSector(fat.g, Lay(), At(slip), curCluster);
      SlipSame(fat.g, At(slip), slip);
      if rootFlag {
        sector := curCluster + position / SECTOR;
      } else {
        sector := fat.g.FirstSector(curCluster);
        sector := sector + position / SECTOR % fat.g.sectorsPerCluster;
      }
      offset := position % SECTOR;
    }

    /** Bytes a read of `want` bytes may deliver before the known size stops it.  The sum wraps on 32
        bits, and then the size stops nothing. */
    function Wanted(want: nat): nat
      reads this
    {
      Clipped(size, position, want)
    }

    // The end of a turn of fat_read: on to the next sector, in the next cluster if need be.
    method NextSector(after: nat) returns (sector: nat, ended: bool)
      requires Sound(fat.m, fat.g) && Laid(fat.g, fat.m.Img(), Lay())
      requires 0 < position <= Total(fat.g, Lay()) && position % SECTOR == 0
      requires CursorAt(fat.g, Lay(), position - 1, curCluster)
      requires after == Secs(fat.g, Lay())[position / SECTOR - 1] + 1
      modifies this`curCluster, fat.m, fat.m.buf
      ensures Sound(fat.m, fat.g) && fat.m.Img() == old(fat.m.Img()) && (old(fat.m.Coherent()) ==> fat.m.Coherent())
      ensures CursorAt(fat.g, Lay(), position, curCluster)
      ensures ended <==> !rootFlag && position == Total(fat.g, Lay())
      ensures position < Total(fat.g, Lay()) ==> sector == Secs(fat.g, Lay())[position / SECTOR]
    {
      hide Geometry.Valid, Table, CursorAt, EndOf, ReadTest, WriteTest, Aligned, Geometry.FirstSector, Secs;
      sector, ended := after, false;
      if rootFlag {
        RootStep(fat.g, Lay(), position, curCluster);
        return;
      }
      ghost var i, atEnd := CrossCase(fat.g, chain, position, curCluster);
      if ReadTest(fat.g, sector) {
        LinkAt(fat.g, fat.m.Img(), chain, i);
        Arrive(fat.g, chain, i, position);
        curCluster := GetNextCluster(fat.m, fat.g, curCluster);
        if curCluster == fat.g.Eoc() {
          ended := true;
          return;
        }
        sector := fat.g.FirstSector(curCluster);
      }
    }

    // One turn of fat_read's copy, up to the end of the sector.
    method ReadChunk(out: array<byte>, at: nat, chunk: nat, sector: nat)
      requires Ready(fat.m, fat.g) && Laid(fat.g, fat.m.Img(), Lay()) && CursorAt(fat.g, Lay(), position, curCluster)
      requires out != fat.m.buf && at + chunk <= out.Length && 0 < chunk <= SECTOR - position % SECTOR
      requires position < Total(fat.g, Lay()) && sector == Secs(fat.g, Lay())[position / SECTOR]
      modifies this`position, fat.m, fat.m.buf, out
      ensures fat.m.Coherent() && Sound(fat.m, fat.g) && fat.m.Img() == old(fat.m.Img())
      ensures position == old(position) + chunk <= Total(fat.g, Lay())
      ensures position % SECTOR == 0 <==> chunk == SECTOR - old(position) % SECTOR
      ensures position % SECTOR == 0 ==> position / SECTOR == old(position) / SECTOR + 1
      ensures CursorAt(fat.g, Lay(), position - 1, curCluster)
      ensures position % SECTOR != 0 ==> CursorAt(fat.g, Lay(), position, curCluster)
      ensures out[..] == Splice(old(out[..]), at, Data(fat.g, fat.m.Img(), Lay())[old(position)..position])
    {
      hide Geometry.Valid, Laid, CursorAt, Secs, Content, Splice;
      LaidUsable(fat.g, fat.m.Img(), Lay());
      LaidGood(fat.g, fat.m.Img(), Lay());
      CopyFromSector(fat.m, fat.g, sector, position % SECTOR, chunk, out, at);
      ContentSlice(fat.m.Img(), Secs(fat.g, Lay()), position / SECTOR, position % SECTOR, chunk);
      CursorSameSector(fat.g, Lay(), position, position + chunk, curCluster);
      ChunkEnd(position, chunk);
      position := position + chunk;
    }

    // The loop of fat_read.
    method CopyRun(out: array<byte>, limit: nat, sector0: nat, offset0: nat) returns (n: nat)
      requires Ready(fat.m, fat.g) && Laid(fat.g, fat.m.Img(), Lay()) && CursorAt(fat.g, Lay(), position, curCluster)
      requires out != fat.m.buf && 0 < limit <= out.Length && position < Total(fat.g, Lay())
      requires offset0 == position % SECTOR && sector0 == Secs(fat.g, Lay())[position / SECTOR]
      requires rootFlag ==> position + limit <= Total(fat.g, Lay())
      modifies this`position, this`curCluster, fat.m, fat.m.buf, out
      ensures fat.m.Coherent() && Sound(fat.m, fat.g) && fat.m.Img() == old(fat.m.Img())
      ensures CursorAt(fat.g, Lay(), position, curCluster)
      ensures n == Min(limit, Total(fat.g, Lay()) - old(position)) && position == old(position) + n
      ensures out[..] == Splice(old(out[..]), 0, Data(fat.g, fat.m.Img(), Lay())[old(position)..position])
    {
      hide Geometry.Valid, Laid, CursorAt, Secs, Data, Splice;
      LaidUsable(fat.g, fat.m.Img(), Lay());
      ghost var img, lay, pos := fat.m.Img(), Lay(), position;
      ghost var secs, data := Secs(fat.g, lay), Data(fat.g, img, lay);
      SpliceNothing(out[..], data, pos);
      var sector, offset := sector0, offset0;
      n := 0;
      while n < limit
        invariant n <= limit && position == pos + n <= |data|
        invariant Ready(fat.m, fat.g) && fat.m.Img() == img && (n > 0 ==> fat.m.Coherent() && Sound(fat.m, fat.g))
        invariant CursorAt(fat.g, lay, position, curCluster)
        invariant n < limit ==>
          position < |data| && offset == position % SECTOR && sector == secs[position / SECTOR]
        invariant out[..] == Splice(old(out[..]), 0, data[pos..position])
      {
        var chunk := Min(SECTOR - offset, limit - n);
        ReadChunk(out, n, chunk, sector);
        SpliceSlices(old(out[..]), data, pos, pos + n, pos + n + chunk);
        n := n + chunk;
        if position % SECTOR != 0 {
          assert n == limit;
          break;
        }
        offset := 0;
        var ended;
        sector, ended := NextSector(sector + 1);
        if ended {
          assert position == |data|;
          break;
        }
      }
    }

    // fat_read, into `out`
    method Read(out: array<byte>, want: nat) returns (n: nat)
      requires Settled() && out != fat.m.buf && want <= out.Length
      requires Wanted(want) > 0 ==> position < Len()
      requires rootFlag ==> position + want < U32
      modifies this`position, this`curCluster, fat.m, fat.m.buf, out
      ensures Settled() && fat.m.Img() == old(fat.m.Img()) && (n > 0 ==> fat.m.Coherent())
      ensures n > 0 || old(Sound(fat.m, fat.g)) ==> Sound(fat.m, fat.g)
      ensures n <= want && position == old(position) + n <= Len()
      ensures n == Min(old(Wanted(want)), Len() - old(position))
      // the same without the clip: an unknown size, a size, a position behind it, and a sum that wraps
      ensures size == 0 ==> n == Min(want, Len() - old(position))
      ensures size != 0 && old(position) + want < U32 && old(position) <= size ==> n == Min(want, Min(size, Len()) - old(position))
      ensures size != 0 && size < old(position) && size < old(position) + want < U32 ==> n == 0
      ensures size != 0 && U32 <= old(position) + want <= U32 + size && old(position) + want < 2 * U32 ==> n == Min(want, Len() - old(position))
      ensures size != 0 && U32 + size < old(position) + want < 2 * U32 ==> n == if old(position) <= size then Min(size, Len()) - old(position) else 0
      ensures out[..] == Splice(old(out[..]), 0, Bytes()[old(position)..position])
    {
      hide Geometry.Valid, Laid, CursorAt, Secs, Splice, Content, Clipped, Ready;
      ReadyShape(fat.m, fat.g);
      LaidUsable(fat.g, fat.m.Img(), Lay());
      EmptyCursor(fat.g, fat.m.Img(), Lay(), position, curCluster);
      SpliceNothing(out[..], Bytes(), position);
      ClippedCases(size, position, want);
      var limit := Wanted(want);
      n := 0;
      if limit > 0 {
        RootTotal(fat.g, Lay());
        if rootFlag { ClippedRoot(size, position, want); }
        NoSlip(fat.g);
        var sector, offset := SectorOffset(0);
        n := CopyRun(out, limit, sector, offset);
        SoundReady(fat.m, fat.g);
      }
    }

    // The step of fat_write at the end of a cluster, the `j`-th of the chain.
    method NextClusterToWrite(clear: bool, ghost j: nat) returns (next: nat)
      requires fat.m.Coherent() && fat.Valid() && Laid(fat.g, fat.m.Img(), Chained(chain))
      requires j < |chain| && curCluster == chain[j]
      modifies this`curCluster, this`chain, fat`lastAlloc, fat.m, fat.m.buf
      ensures Ready(fat.m, fat.g) && |fat.m.dev| == old(|fat.m.dev|) && SearchFrom(fat.lastAlloc, fat.g.clusterCount)
      ensures !clear || chain == old(chain) ==> fat.m.Coherent()
      ensures fat.g.numFats >= 2 ==> Sound(fat.m, fat.g)
      ensures if chain == old(chain) then fat.m.Img() == old(fat.m.Img()) else
        && chain == old(chain) + [curCluster]
        && Appended(fat.g, old(fat.m.Img()), fat.m.Img(), old(chain), curCluster, clear)
        && (Mirrored(old(fat.m.Img()), fat.g) ==> Mirrored(fat.m.Img(), fat.g))
      ensures chain != old(chain) ==> j + 1 == |old(chain)|
      ensures next == 0 ==>
        && chain == old(chain) && j + 1 == |chain| && curCluster == old(curCluster)
        && FreeSet(Table(fat.m.Img(), fat.g), fat.g.clusterCount) == {}
      ensures next != 0 ==> j + 1 < |chain| && chain[j + 1] == next == curCluster
    {
      hide Geometry.Valid, Table, Mirrored, ClearedOutsideFat, SameOutsideFat, NextFree, FreeSet, Ready, Sound, ClearedTag;
      LinkAt(fat.g, fat.m.Img(), chain, j);
      ghost var last := fat.Tab()[curCluster] == fat.g.Eoc();
      ValidBound(fat.g, |fat.m.dev|);
      next := fat.AllocNextCluster(curCluster, clear);
      ClearedReady(fat.m, fat.g, old(curCluster));
      if next != 0 {
        if last {
          chain := chain + [next];
        }
        curCluster := next;
      }
    }

    // The end of a turn of fat_write: on to the next sector, in a new cluster if need be.
    method NextSectorToWrite(after: nat, clear: bool, ghost slip: nat) returns (sector: nat, full: bool)
      requires fat.Valid() && fat.m.Coherent() && Laid(fat.g, fat.m.Img(), Lay())
      requires 0 < At(slip) <= Total(fat.g, Lay()) && At(slip) % SECTOR == 0
      requires CursorAt(fat.g, Lay(), At(slip) - 1, curCluster)
      requires after == Secs(fat.g, Lay())[At(slip) / SECTOR - 1] + 1
      requires !rootFlag ==> Aligned(fat.g)
      modifies this`curCluster, this`chain, fat`lastAlloc, fat.m, fat.m.buf
      ensures Ready(fat.m, fat.g) && |fat.m.dev| == old(|fat.m.dev|) && SearchFrom(fat.lastAlloc, fat.g.clusterCount)
      ensures !clear || chain == old(chain) ==> fat.m.Coherent()
      ensures fat.g.numFats >= 2 ==> Sound(fat.m, fat.g)
      ensures if chain == old(chain) then fat.m.Img() == old(fat.m.Img()) else
        && !rootFlag && old(chain) != [] && chain == old(chain) + [curCluster]
        && Appended(fat.g, old(fat.m.Img()), fat.m.Img(), old(chain), curCluster, clear)
        && (Mirrored(old(fat.m.Img()), fat.g) ==> Mirrored(fat.m.Img(), fat.g))
      ensures Usable(fat.g, Lay())
      ensures chain != old(chain) ==> |chain| == |old(chain)| + 1 && EndOf(fat.g, |old(chain)| - 1, At(slip))
      ensures full ==>
        && !rootFlag && chain == old(chain) && At(slip) == Total(fat.g, Lay())
        && chain != [] && curCluster == chain[|chain| - 1]
        && FreeSet(Table(fat.m.Img(), fat.g), fat.g.clusterCount) == {}
      ensures !full ==> CursorAt(fat.g, Lay(), At(slip), curCluster) && (!rootFlag ==> At(slip) < Total(fat.g, Lay()))
      ensures !full && At(slip) < Total(fat.g, Lay()) ==> sector == Secs(fat.g, Lay())[At(slip) / SECTOR]
    {
      hide Geometry.Valid, Table, CursorAt, EndOf, ReadTest, WriteTest, Aligned, Geometry.FirstSector, Secs, Mirrored, ClearedOutsideFat, SameOutsideFat;
      sector, full := after, false;
      if rootFlag {
        RootStep(fat.g, Lay(), At(slip), curCluster);
        return;
      }
      ghost var i, atEnd := CrossCase(fat.g, chain, At(slip), curCluster);
      if WriteTest(fat.g, sector) {
        var next := NextClusterToWrite(clear, i);
        Arrive(fat.g, chain, i, At(slip));
        if next == 0 {
          full := true;
          return;
        }
        sector := fat.g.FirstSector(curCluster);
      }
    }
  
    // One turn of fat_write's copy, up to the end of the sector.
    method WriteChunk(d: seq<byte>, from: nat, chunk: nat, sector: nat, clear: bool,
        ghost img0: seq<byte>, ghost lay0: Layout, ghost pos: nat, ghost slip: nat)
      requires Ready(fat.m, fat.g) && Laid(fat.g, img0, lay0) && fat.g.sectorsPerCluster >= 1 && Lag(slip)
      requires from + chunk <= |d| && Written(fat.g, img0, lay0, fat.m.Img(), Lay(), pos, d[..from], clear)
      requires Usable(fat.g, Lay()) && CursorAt(fat.g, Lay(), At(slip), curCluster)
      requires At(slip) == pos + from < Total(fat.g, Lay()) && sector == Secs(fat.g, Lay())[At(slip) / SECTOR]
      requires 0 < chunk <= SECTOR - At(slip) % SECTOR
      modifies this`position, fat.m, fat.m.buf
      ensures fat.m.Coherent() && |fat.m.dev| == old(|fat.m.dev|) && fat.g.Valid(|fat.m.dev|)
      ensures Lag(slip) && position == old(position) + chunk && At(slip) == old(At(slip)) + chunk <= Total(fat.g, Lay())
      ensures Laid(fat.g, fat.m.Img(), Lay())
      ensures Written(fat.g, img0, lay0, fat.m.Img(), Lay(), pos, d[..from + chunk], clear)
      ensures At(slip) % SECTOR == 0 <==> chunk == SECTOR - old(At(slip)) % SECTOR
      ensures At(slip) % SECTOR == 0 ==> At(slip) / SECTOR == old(At(slip)) / SECTOR + 1
      ensures CursorAt(fat.g, Lay(), At(slip) - 1, curCluster)
      ensures At(slip) % SECTOR != 0 ==> CursorAt(fat.g, Lay(), At(slip), curCluster)
    {
      hide Geometry.Valid, Laid, CursorAt, Secs, Content, Splice, Written, Slip;
      SlipSame(fat.g, At(slip), slip);
      ghost var img := fat.m.Img();
      WrittenLaid(fat.g, img0, lay0, img, Lay(), pos, d[..from], clear);
      LaidGood(fat.g, img, Lay());
      CopyToSector(fat.m, fat.g, sector, position % SECTOR, chunk, d, from);
      WrittenPatch(fat.g, img0, lay0, img, Lay(), pos, d[..from], clear, At(slip) / SECTOR, At(slip) % SECTOR, d[from..from + chunk]);
      assert d[..from] + d[from..from + chunk] == d[..from + chunk];
      WrittenLaid(fat.g, img0, lay0, fat.m.Img(), Lay(), pos, d[..from + chunk], clear);
      CursorSameSector(fat.g, Lay(), At(slip), At(slip) + chunk, curCluster);
      ChunkEnd(At(slip), chunk);
      position := position + chunk;
    }

    /** The position is the first byte of the last cluster, which a write has just added. */
    ghost predicate OnNewCluster(before: Layout, slip: nat)
      requires fat.g.sectorsPerCluster >= 1
      reads this
    {
      !rootFlag && before.Chained? && |chain| > |before.ch| && At(slip) == SECTOR * ((|chain| - 1) * fat.g.sectorsPerCluster)
    }

    /** The same with what has been written so far. */
    method TurnEnd(after: nat, clear: bool, ghost img0: seq<byte>, ghost lay0: Layout, ghost pos: nat, ghost e: seq<byte>, ghost slip: nat)
      returns (sector: nat, full: bool)
      requires fat.m.Coherent() && fat.Valid() && Laid(fat.g, fat.m.Img(), Lay())
      requires 0 < At(slip) <= Total(fat.g, Lay()) && At(slip) % SECTOR == 0
      requires CursorAt(fat.g, Lay(), At(slip) - 1, curCluster)
      requires after == Secs(fat.g, Lay())[At(slip) / SECTOR - 1] + 1
      requires !rootFlag ==> Aligned(fat.g)
      requires Laid(fat.g, img0, lay0) && Written(fat.g, img0, lay0, fat.m.Img(), Lay(), pos, e, clear)
      modifies this`curCluster, this`chain, fat`lastAlloc, fat.m, fat.m.buf
      ensures Ready(fat.m, fat.g) && |fat.m.dev| == old(|fat.m.dev|) && SearchFrom(fat.lastAlloc, fat.g.clusterCount)
      ensures chain == old(chain) ==> fat.m.Coherent()
      ensures chain != old(chain) ==>
        && !rootFlag && |chain| == |old(chain)| + 1 && Index(fat.g, At(slip)) + 1 == |chain|
        && At(slip) == SECTOR * ((|chain| - 1) * fat.g.sectorsPerCluster) && (!clear ==> fat.m.Coherent())
      ensures fat.g.numFats >= 2 ==> Sound(fat.m, fat.g)
      ensures Usable(fat.g, Lay()) && Written(fat.g, img0, lay0, fat.m.Img(), Lay(), pos, e, clear)
      ensures full ==>
        && !rootFlag && chain == old(chain) && At(slip) == Total(fat.g, Lay())
        && chain != [] && curCluster == chain[|chain| - 1]
        && FreeSet(Table(fat.m.Img(), fat.g), fat.g.clusterCount) == {}
      ensures !full ==> CursorAt(fat.g, Lay(), At(slip), curCluster) && (!rootFlag ==> At(slip) < Total(fat.g, Lay()))
      ensures !full && At(slip) < Total(fat.g, Lay()) ==> sector == Secs(fat.g, Lay())[At(slip) / SECTOR]
    {
      hide Geometry.Valid, Laid, CursorAt, Secs, Content, Written, Appended, Aligned, FreeSet, Table, Ready, Index, Sound;
      ghost var before, ch := fat.m.Img(), chain;
      sector, full := NextSectorToWrite(after, clear, slip);
      ReadyShape(fat.m, fat.g);
      if chain != ch {
        NewEnd(fat.g, |ch|, At(slip));
        WrittenGrow(fat.g, img0, lay0, before, ch, pos, e, clear, fat.m.Img(), curCluster);
      }
    }

    /** `e` has been written from `pos` on, and the chain has only grown at its end. */
    ghost predicate Going(img0: seq<byte>, lay0: Layout, pos: nat, e: seq<byte>, clear: bool, slip: nat)
      reads this, fat, fat.m, fat.m.buf
    {
      && Ready(fat.m, fat.g) && fat.m.Shape() && |fat.m.dev| == |img0| && SearchFrom(fat.lastAlloc, fat.g.clusterCount)
      && Laid(fat.g, img0, lay0) && Written(fat.g, img0, lay0, fat.m.Img(), Lay(), pos, e, clear)
      && fat.g.sectorsPerCluster >= 1 && Usable(fat.g, Lay()) && Lag(slip) && CursorAt(fat.g, Lay(), At(slip), curCluster) && At(slip) == pos + |e|
      && (if rootFlag then Lay() == lay0
          else lay0.Chained? && |lay0.ch| <= |chain| && At(slip) < Total(fat.g, Lay()))
      && (Lay() == lay0 || (!rootFlag && |chain| <= Index(fat.g, At(slip)) + 1))
      && (e != [] ==> (fat.m.Coherent() || (clear && OnNewCluster(lay0, slip))) && (fat.g.numFats >= 2 ==> Sound(fat.m, fat.g)))
    }

    /** `e` has been written, the chain is full and so is the volume. */
    ghost predicate Ended(img0: seq<byte>, lay0: Layout, pos: nat, e: seq<byte>, clear: bool, slip: nat)
      reads this, fat, fat.m, fat.m.buf
    {
      && fat.m.Coherent() && fat.g.Valid(|fat.m.dev|) && |fat.m.dev| == |img0| && SearchFrom(fat.lastAlloc, fat.g.clusterCount)
      && Laid(fat.g, img0, lay0) && Written(fat.g, img0, lay0, fat.m.Img(), Lay(), pos, e, clear)
      && !rootFlag && chain != [] && Usable(fat.g, Lay()) && fat.g.sectorsPerCluster >= 1 && Lag(slip) && At(slip) == pos + |e| == Total(fat.g, Lay()) && curCluster == chain[|chain| - 1]
      && FreeSet(Table(fat.m.Img(), fat.g), fat.g.clusterCount) == {}
    }

    /** The sector and offset under the position. */
    ghost predicate AtSector(sector: nat, offset: nat, slip: nat)
      reads this, fat
    {
      && Usable(fat.g, Lay()) && At(slip) < Total(fat.g, Lay())
      && offset == At(slip) % SECTOR && sector == Secs(fat.g, Lay())[At(slip) / SECTOR]
    }

    lemma StartGoing(clear: bool, slip: nat)
      requires Ready(fat.m, fat.g) && SearchFrom(fat.lastAlloc, fat.g.clusterCount)
      requires Laid(fat.g, fat.m.Img(), Lay()) && CursorAt(fat.g, Lay(), At(slip), curCluster) && At(slip) < Total(fat.g, Lay())
      requires fat.g.sectorsPerCluster >= 1 && Lag(slip)
      ensures Going(fat.m.Img(), Lay(), At(slip), [], clear, slip)
    {
      hide Geometry.Valid, Laid, CursorAt, Secs, Written;
      ReadyShape(fat.m, fat.g);
      LaidUsable(fat.g, fat.m.Img(), Lay());
      WrittenNothing(fat.g, fat.m.Img(), Lay(), At(slip), clear);
    }

    lemma GoingFacts(img0: seq<byte>, lay0: Layout, pos: nat, e: seq<byte>, clear: bool, slip: nat)
      requires Going(img0, lay0, pos, e, clear, slip) && e != []
      ensures fat.m.Shape() && |fat.m.dev| == |img0| && Ready(fat.m, fat.g) && SearchFrom(fat.lastAlloc, fat.g.clusterCount)
      ensures Usable(fat.g, Lay()) && (fat.m.Coherent() || (clear && OnNewCluster(lay0, slip))) && (fat.g.numFats >= 2 ==> Sound(fat.m, fat.g))
      ensures Laid(fat.g, img0, lay0) && Written(fat.g, img0, lay0, fat.m.Img(), Lay(), pos, e, clear) && At(slip) == pos + |e|
      ensures fat.g.sectorsPerCluster >= 1 && Lag(slip)
      ensures CursorAt(fat.g, Lay(), At(slip), curCluster) && (rootFlag || At(slip) < Total(fat.g, Lay()))
      ensures Lay() == lay0 || (!rootFlag && |chain| == Index(fat.g, At(slip)) + 1)
    {
      hide Geometry.Valid, Laid, CursorAt, Secs, Written, Index;
      if !rootFlag {
        IndexInside(fat.g, chain, At(slip));
      }
    }

    lemma EndedFacts(img0: seq<byte>, lay0: Layout, pos: nat, e: seq<byte>, clear: bool, slip: nat)
      requires Ended(img0, lay0, pos, e, clear, slip)
      ensures fat.m.Shape() && |fat.m.dev| == |img0| && fat.m.Coherent() && Ready(fat.m, fat.g) && Sound(fat.m, fat.g) && SearchFrom(fat.lastAlloc, fat.g.clusterCount)
      ensures Laid(fat.g, img0, lay0) && Written(fat.g, img0, lay0, fat.m.Img(), Lay(), pos, e, clear) && At(slip) == pos + |e|
      ensures fat.g.sectorsPerCluster >= 1 && Lag(slip)
      ensures !rootFlag && chain != [] && Usable(fat.g, Lay()) && At(slip) == Total(fat.g, Lay()) && curCluster == chain[|chain| - 1]
      ensures FreeSet(Table(fat.m.Img(), fat.g), fat.g.clusterCount) == {}
    {
      hide Laid, Secs, Written, Geometry.Valid, Table;
      CacheReady(fat.m, fat.g);
    }

    // One turn of the loop of fat_write.
    method WriteTurn(d: seq<byte>, n: nat, limit: nat, sector0: nat, offset: nat, clear: bool,
        ghost img0: seq<byte>, ghost lay0: Layout, ghost pos: nat, ghost slip: nat)
      returns (n': nat, sector: nat, full: bool)
      requires n < limit <= |d| && Going(img0, lay0, pos, d[..n], clear, slip) && AtSector(sector0, offset, slip)
      requires if rootFlag then pos + limit <= Total(fat.g, Lay()) else Aligned(fat.g) || InSector(At(slip), limit - n)
      modifies this`position, this`curCluster, this`chain, fat`lastAlloc, fat.m, fat.m.buf
      ensures n < n' <= limit && (old(InSector(At(slip), limit - n)) ==> n' == limit)
      ensures if full then Ended(img0, lay0, pos, d[..n'], clear, slip) else Going(img0, lay0, pos, d[..n'], clear, slip)
      ensures !full && n' < limit ==> AtSector(sector, 0, slip)
    {
      hide Geometry.Valid, Laid, CursorAt, Secs, Content, Splice, Written, Aligned, FreeSet, Table, Ready, Index, Total, Usable, Slip;
      var chunk := Min(SECTOR - offset, limit - n);
      IndexMono(fat.g, At(slip), At(slip) + chunk);
      WriteChunk(d, n, chunk, sector0, clear, img0, lay0, pos, slip);
      SlipSame(fat.g, At(slip), slip);
      CacheReady(fat.m, fat.g);
      n', sector, full := n + chunk, sector0, false;
      NotAtEnd(fat.g, Lay(), At(slip));
      if position % SECTOR == 0 {
        sector, full := TurnEnd(sector0 + 1, clear, img0, lay0, pos, d[..n'], slip);
        ReadyShape(fat.m, fat.g);
      }
    }

    // The loop of fat_write.
    method WriteRun(d: seq<byte>, limit: nat, sector0: nat, offset0: nat, clear: bool, ghost slip: nat) returns (n: nat, full: bool)
      requires Ready(fat.m, fat.g) && SearchFrom(fat.lastAlloc, fat.g.clusterCount)
      requires Laid(fat.g, fat.m.Img(), Lay()) && CursorAt(fat.g, Lay(), At(slip), curCluster)
      requires 0 < limit <= |d| && At(slip) < Total(fat.g, Lay())
      requires offset0 == At(slip) % SECTOR && sector0 == Secs(fat.g, Lay())[At(slip) / SECTOR]
      requires fat.g.sectorsPerCluster >= 1 && Lag(slip)
      requires if rootFlag then At(slip) + limit <= Total(fat.g, Lay()) else Aligned(fat.g) || InSector(At(slip), limit)
      modifies this`position, this`curCluster, this`chain, fat`lastAlloc, fat.m, fat.m.buf
      ensures Ready(fat.m, fat.g) && |fat.m.dev| == old(|fat.m.dev|) && SearchFrom(fat.lastAlloc, fat.g.clusterCount)
      ensures fat.m.Coherent() || (clear && OnNewCluster(old(Lay()), slip))
      ensures fat.g.numFats >= 2 ==> Sound(fat.m, fat.g)
      ensures n <= limit && position == old(position) + n && Lag(slip)
      ensures Written(fat.g, old(fat.m.Img()), old(Lay()), fat.m.Img(), Lay(), old(At(slip)), d[..n], clear)
      ensures if full then
          && !rootFlag && chain != [] && At(slip) == Total(fat.g, Lay()) && curCluster == chain[|chain| - 1]
          && FreeSet(Table(fat.m.Img(), fat.g), fat.g.clusterCount) == {}
        else n == limit && CursorAt(fat.g, Lay(), At(slip), curCluster) && (rootFlag || At(slip) < Total(fat.g, Lay()))
      ensures !full ==> Lay() == old(Lay()) || (!rootFlag && |chain| == Index(fat.g, At(slip)) + 1)
    {
      hide Going, Ended, Geometry.Valid, Laid, CursorAt, Secs, Written, FreeSet, Table, Ready, Index, Slip, Aligned;
      ReadyShape(fat.m, fat.g);
      LaidUsable(fat.g, fat.m.Img(), Lay());
      ghost var img0, lay0, pos := fat.m.Img(), Lay(), At(slip);
      StartGoing(clear, slip);
      var sector, offset := sector0, offset0;
      n, full := 0, false;
      assert d[..0] == [];
      while n < limit
        invariant n <= limit && !full && Going(img0, lay0, pos, d[..n], clear, slip)
        invariant n < limit ==> AtSector(sector, offset, slip) && (rootFlag || Aligned(fat.g) || InSector(At(slip), limit - n))
      {
        n, sector, full := WriteTurn(d, n, limit, sector, offset, clear, img0, lay0, pos, slip);
        offset := 0;
        if full {
          break;
        }
      }
      if full {
        EndedFacts(img0, lay0, pos, d[..n], clear, slip);
      } else {
        GoingFacts(img0, lay0, pos, d[..n], clear, slip);
      }
    }

    /** The directory entry lies off the tables and in no cluster of this file or free cluster. */
    ghost predicate DirentSafe()
      requires Placed()
      reads this, fat, fat.m, fat.m.buf
    {
      direntSector != 0 ==>
        && !rootFlag && fat.g.FatEnd() <= direntSector && direntOffset + DIRENT <= SECTOR
        && SECTOR * (direntSector + 1) <= |fat.m.dev|
        && Avoids(fat.g, fat.m.Img(), chain, direntSector)
    }

    // The first step of fat_write on an empty file: give it a cluster.
    method FirstClusterToWrite() returns (c: nat)
      requires Valid() && !rootFlag && chain == []
      modifies this`firstCluster, this`curCluster, this`chain, fat`lastAlloc, fat.m, fat.m.buf
      ensures fat.Valid() && |fat.m.dev| == old(|fat.m.dev|)
      ensures c == 0 ==>
        && chain == [] && firstCluster == curCluster == 0 && fat.m.Img() == old(fat.m.Img())
        && FreeSet(Table(fat.m.Img(), fat.g), fat.g.clusterCount) == {}
      ensures c != 0 ==>
        && chain == [c] && firstCluster == curCluster == c && fat.g.IsCluster(c)
        && Laid(fat.g, fat.m.Img(), Chained([c])) && CursorAt(fat.g, Chained([c]), 0, c)
        && Frame(fat.g, old(fat.m.Img()), Chained([]), fat.m.Img(), Chained([c]))
        && position == 0 && 0 < Total(fat.g, Chained([c]))
    {
      hide Geometry.Valid, Table, Mirrored, SameOutsideFat;
      ghost var img := fat.m.Img();
      c := fat.AllocFirstCluster();
      firstCluster := c;
      if c != 0 {
        curCluster := c;
        chain := [c];
        FirstCluster(fat.g, img, fat.m.Img(), c);
      }
    }

    // The end of fat_write: a file that has grown gets its new size written to its entry.
    method UpdateEntry()
      requires Ready(fat.m, fat.g)
      requires direntSector != 0 ==>
        SECTOR * (direntSector + 1) <= |fat.m.dev| && fat.g.FatEnd() <= direntSector && direntOffset + DIRENT <= SECTOR
      modifies this`size, fat.m, fat.m.buf
      ensures Ready(fat.m, fat.g) && |fat.m.dev| == old(|fat.m.dev|)
      ensures size == if direntSector != 0 && position > old(size) then position else old(size)
      ensures EntryStored(fat.m.Img(), old(fat.m.Img()), size != old(size) && !isAsync)
      ensures old(fat.m.Coherent()) || (size != old(size) && !isAsync) ==> fat.m.Coherent()
      ensures old(Sound(fat.m, fat.g)) ==> Sound(fat.m, fat.g)
    {
      if direntSector != 0 && position > size {
        size := position;
        if !isAsync {
          FileSync();
        }
      }
    }

    /** With one copy of the table, a write to a file of unknown size that ends exactly where a new
        cluster begins zeroes that cluster last; unless the entry is then written, the tag stays. */
    ghost predicate EndsOnNew(at: nat, len: nat)
      reads this
    {
      && fat.g.numFats < 2 && size == 0 && !rootFlag && (direntSector == 0 || isAsync) && len > 0
      && fat.g.sectorsPerCluster >= 1 && AtClusterEnd(fat.g, |chain|, at + len)
    }

    /** The cache after a write: no stale tag, or the one left by a cluster zeroed last. */
    ghost predicate Quiet(before: Layout, slip: nat)
      reads this, fat, fat.m, fat.m.buf
    {
      Sound(fat.m, fat.g) || (fat.g.numFats < 2 && fat.g.sectorsPerCluster >= 1 && OnNewCluster(before, slip))
    }

    /** A write of `len` bytes leaves the handle settled: enough clusters are free, or the file is empty and
        none is. */
    ghost predicate StaysSettled(len: nat)
      requires Placed()
      reads this, fat, fat.m, fat.m.buf
    {
      || Free(fat.g, fat.m.Img()) >= Needed(fat.g, Lay(), position, len)
      || (!rootFlag && chain == [] && Free(fat.g, fat.m.Img()) == 0)
    }

    // fat_write on a handle whose position is `slip` bytes ahead of its cursor.  `mid` is the disk
    // before the directory entry is brought up to date; `full` says that a search for a cluster failed,
    // and `Stored` when it does.
    method Write(d: seq<byte>, ghost slip: nat) returns (n: nat, ghost full: bool, ghost mid: seq<byte>)
      requires Running(slip) && DirentSafe() && (!rootFlag && chain == [] ==> Sound(fat.m, fat.g))
      requires !rootFlag ==> Aligned(fat.g) || InSector(At(slip), |d|)
      requires d != [] && !rootFlag && chain != [] ==> At(slip) < Len()
      requires rootFlag || slip > 0 ==> position + |d| < U32
      modifies this, fat`lastAlloc, fat.m, fat.m.buf
      ensures Placed() && |fat.m.dev| == old(|fat.m.dev|) && (slip == 0 && old(Sized()) ==> Sized())
      // what was written, and where
      ensures position == old(position) + n
      ensures Stored(fat.g, old(fat.m.Img()), old(Lay()), mid, Lay(), old(At(slip)), d, n, full, old(size) == 0 && old(Lay()) != Chained([]))
      // the directory entry
      ensures size == if direntSector != 0 && position > old(size) then position else old(size)
      ensures EntryStored(fat.m.Img(), mid, size != old(size) && !isAsync)
      ensures SameFile(fat.g, mid, fat.m.Img(), Lay())
      // the handle and the cache afterwards
      ensures Running(Slipped(slip, full))
      ensures slip == 0 ==> (Settled() <==> old(StaysSettled(|d|)))
      ensures old(Sound(fat.m, fat.g)) || n > 0 ==> if old(EndsOnNew(At(slip), |d|)) then Quiet(old(Lay()), slip) else Sound(fat.m, fat.g)
      ensures Quiet(old(Lay()), slip) && !Sound(fat.m, fat.g) ==> n == 0 || !full
      ensures d != [] && !rootFlag && chain != [] ==> At(Slipped(slip, full)) < Total(fat.g, Lay())
    {
      hide Geometry.Valid, Table, Mirrored, Stored, Laid, CursorAt, Secs, InCluster, Ready, Sound, Slip, SameFile, EntryStored, Running, Lag, Slipped, StaysSettled, AtClusterEnd;
      RunningFacts(slip);
      n, full := WriteMost(d, slip);
      LandedShape(slip, full, d != []);
      mid := fat.m.Img();
      FinishWrite(slip, full, d != []);
    }

    lemma LandedShape(slip: nat, full: bool, some: bool)
      requires Landed(slip, full, some)
      ensures Ready(fat.m, fat.g) && fat.m.Shape()
    {
      hide Laid, CursorAt, Secs, Slip;
      ReadyShape(fat.m, fat.g);
    }

    // fat_write up to the update of the directory entry, and what that needs.
    method WriteMost(d: seq<byte>, ghost slip: nat) returns (n: nat, ghost full: bool)
      requires Running(slip) && DirentSafe() && (!rootFlag && chain == [] ==> Sound(fat.m, fat.g))
      requires !rootFlag ==> Aligned(fat.g) || InSector(At(slip), |d|)
      requires d != [] && !rootFlag && chain != [] ==> At(slip) < Len()
      modifies this`firstCluster, this`position, this`curCluster, this`chain, fat`lastAlloc, fat.m, fat.m.buf
      ensures Ready(fat.m, fat.g) && |fat.m.dev| == old(|fat.m.dev|) && position == old(position) + n
      ensures Stored(fat.g, old(fat.m.Img()), old(Lay()), fat.m.Img(), Lay(), old(At(slip)), d, n, full, size == 0 && old(Lay()) != Chained([]))
      ensures Landed(slip, full, d != []) && (slip == 0 && old(Sized()) ==> Sized())
      ensures rootFlag ==> size % SECTOR == 0 && direntSector == 0
      ensures !rootFlag ==> firstCluster == if chain == [] then 0 else chain[0]
      ensures direntSector != 0 ==>
        && fat.g.FatEnd() <= direntSector && direntOffset + DIRENT <= SECTOR && SECTOR * (direntSector + 1) <= |fat.m.dev|
        && forall c: nat :: c in chain ==> c >= 2 && !InCluster(fat.g, c, SECTOR * direntSector)
      ensures slip == 0 ==> (!full || chain == [] <==> old(StaysSettled(|d|)))
      ensures old(Sound(fat.m, fat.g)) || n > 0 ==>
        || Sound(fat.m, fat.g)
        || (size == 0 && !full && n == |d| > 0 && Quiet(old(Lay()), slip) && AtClusterEnd(fat.g, |old(chain)|, old(At(slip)) + |d|))
    {
      hide Geometry.Valid, Table, Mirrored, Stored, Laid, CursorAt, Secs, InCluster, Ready, Sound, Free, Needed, AtClusterEnd, Slip, Running, Lag, Slipped, Landed;
      RunningFacts(slip);
      ReadyShape(fat.m, fat.g);
      ghost var img0, lay0, at := fat.m.Img(), Lay(), At(slip);
      ghost var safe := Avoids(fat.g, img0, chain, direntSector);
      n, full := WriteData(d, size == 0, slip);
      ReadyShape(fat.m, fat.g);
      StoredExtends(fat.g, img0, lay0, fat.m.Img(), Lay(), at, d, n, full, size == 0 && lay0 != Chained([]));
      if direntSector != 0 && safe {
        StoredAvoids(fat.g, img0, lay0, fat.m.Img(), Lay(), at, d, n, full, size == 0 && lay0 != Chained([]), direntSector);
      }
      StoredIff(fat.g, img0, lay0, fat.m.Img(), Lay(), at, d, n, full, size == 0 && lay0 != Chained([]));
      if !rootFlag && fat.g.sectorsPerCluster >= 1 && OnNewCluster(lay0, slip) {
        NewClusterEnd(fat.g, |lay0.ch|, |chain| - 1, At(slip));
      }
    }

    /** Where a write leaves the handle: the position at the cursor's byte, or, after a failed search, at
        the end with the cursor on the last cluster. */
    ghost predicate Landed(slip: nat, full: bool, some: bool)
      reads this, fat, fat.m, fat.m.buf
    {
      && Ready(fat.m, fat.g) && SearchFrom(fat.lastAlloc, fat.g.clusterCount) && Laid(fat.g, fat.m.Img(), Lay())
      && fat.g.sectorsPerCluster >= 1 && Usable(fat.g, Lay()) && Lag(slip) && At(slip) <= Total(fat.g, Lay())
      && Lag(Slipped(slip, full)) && CursorAt(fat.g, Lay(), At(Slipped(slip, full)), curCluster)
      && (CursorAt(fat.g, Lay(), At(slip), curCluster) <==> !full || chain == []) && (full ==> !rootFlag)
      && (some && !rootFlag && chain != [] ==> At(Slipped(slip, full)) < Total(fat.g, Lay()))
    }

    /** A loop that ended in the middle, or at the end with no cluster found. */
    lemma MakeLanded(slip: nat, full: bool, some: bool)
      requires Ready(fat.m, fat.g) && SearchFrom(fat.lastAlloc, fat.g.clusterCount) && Laid(fat.g, fat.m.Img(), Lay())
      requires fat.g.sectorsPerCluster >= 1 && Usable(fat.g, Lay()) && Lag(slip)
      requires if full then !rootFlag && chain != [] && At(slip) == Total(fat.g, Lay()) && curCluster == chain[|chain| - 1]
        else CursorAt(fat.g, Lay(), At(slip), curCluster) && (some ==> rootFlag || At(slip) < Total(fat.g, Lay()))
      ensures Landed(slip, full, some)
    {
      hide Geometry.Valid, Table, Laid, CursorAt, Secs, Ready, Slip, ChainSectors;
      ReadyShape(fat.m, fat.g);
      EmptySize(fat.g);
      if full {
        StaleCursor(fat.g, fat.m.Img(), chain);
        LastStart(fat.g, chain);
        SlipMore(fat.g, slip);
      } else {
        EmptyCursor(fat.g, fat.m.Img(), Lay(), At(slip), curCluster);
      }
    }

    lemma RunsSettled()
      requires Settled()
      ensures Running(0)
    {
      hide Geometry.Valid, Table, CursorAt, Ready;
      ReadyShape(fat.m, fat.g);
      LaidUsable(fat.g, fat.m.Img(), Lay());
      NoSlip(fat.g);
    }

    lemma RunningFacts(slip: nat)
      requires Running(slip)
      ensures Placed() && fat.g.sectorsPerCluster >= 1 && Lag(slip) && slip <= position && At(slip) == position - slip
      ensures slip > 0 ==> !rootFlag && chain != []
    {
      hide Geometry.Valid, Table, CursorAt, Ready, Slip;
    }

    /** How far ahead the position is after a write: a failed search leaves it one cluster further. */
    ghost function Slipped(slip: nat, full: bool): nat
      reads this
    {
      if full && chain != [] then slip + SECTOR * fat.g.sectorsPerCluster else slip
    }

    // fat_write from the update of the directory entry on.
    method FinishWrite(ghost slip: nat, ghost full: bool, ghost some: bool)
      requires Landed(slip, full, some)
      requires rootFlag ==> size % SECTOR == 0 && direntSector == 0
      requires !rootFlag ==> firstCluster == if chain == [] then 0 else chain[0]
      requires direntSector != 0 ==>
        && fat.g.FatEnd() <= direntSector && direntOffset + DIRENT <= SECTOR && SECTOR * (direntSector + 1) <= |fat.m.dev|
        && forall c: nat :: c in chain ==> c >= 2 && !InCluster(fat.g, c, SECTOR * direntSector)
      modifies this`size, fat.m, fat.m.buf
      ensures Placed() && |fat.m.dev| == old(|fat.m.dev|) && (slip == 0 && old(Sized()) ==> Sized())
      ensures size == if direntSector != 0 && position > old(size) then position else old(size)
      ensures EntryStored(fat.m.Img(), old(fat.m.Img()), size != old(size) && !isAsync)
      ensures SameFile(fat.g, old(fat.m.Img()), fat.m.Img(), Lay())
      ensures Running(Slipped(slip, full)) && (slip == 0 ==> (Settled() <==> !full || chain == []))
      ensures some && !rootFlag && chain != [] ==> At(Slipped(slip, full)) < Total(fat.g, Lay())
      ensures old(Sound(fat.m, fat.g)) || (size != old(size) && !isAsync) ==> Sound(fat.m, fat.g)
    {
      hide Geometry.Valid, Table, Laid, CursorAt, Secs, WithEntry, InCluster, Ready, Sound, Slip;
      ReadyShape(fat.m, fat.g);
      ghost var mid := fat.m.Img();
      UpdateEntry();
      ReadyShape(fat.m, fat.g);
      CacheReady(fat.m, fat.g);
      if fat.m.Img() != mid {
        EntryKeepsFile(fat.g, mid, chain, direntSector, direntOffset, size, firstCluster);
      }
    }

    // fat_write up to the update of the directory entry.
    method WriteData(d: seq<byte>, clear: bool, ghost slip: nat) returns (n: nat, ghost full: bool)
      requires Running(slip) && (!rootFlag && chain == [] ==> Sound(fat.m, fat.g))
      requires !rootFlag ==> Aligned(fat.g) || InSector(At(slip), |d|)
      requires d != [] && !rootFlag && chain != [] ==> At(slip) < Len()
      modifies this`firstCluster, this`position, this`curCluster, this`chain, fat`lastAlloc, fat.m, fat.m.buf
      ensures Ready(fat.m, fat.g) && |fat.m.dev| == old(|fat.m.dev|)
      ensures old(Sound(fat.m, fat.g)) || n > 0 ==>
        || Sound(fat.m, fat.g)
        || (fat.g.numFats < 2 && clear && !full && n == |d| > 0 && OnNewCluster(old(Lay()), slip))
      ensures position == old(position) + n
      ensures Stored(fat.g, old(fat.m.Img()), old(Lay()), fat.m.Img(), Lay(), old(At(slip)), d, n, full,
        clear && old(Lay()) != Chained([]))
      ensures Landed(slip, full, d != [])
      ensures !rootFlag ==> firstCluster == if chain == [] then 0 else chain[0]
    {
      hide Geometry.Valid, Table, Mirrored, Stored, Written, Frame, Laid, CursorAt, Secs, FreeSet, Ready, Sound, Slip;
      ReadyShape(fat.m, fat.g);
      ghost var img0, lay0, at := fat.m.Img(), Lay(), At(slip);
      EmptyCursor(fat.g, img0, lay0, at, curCluster);
      LaidUsable(fat.g, img0, lay0);
      if curCluster == 0 && d != [] {
        var c := FirstClusterToWrite();
        SoundReady(fat.m, fat.g);
        CacheReady(fat.m, fat.g);
        if c == 0 {
          n, full := 0, true;
          NothingStored(fat.g, img0, d);
          return;
        }
      }
      ghost var img1, lay1 := fat.m.Img(), Lay();
      n, full := WriteBody(d, clear, slip);
      ReadyShape(fat.m, fat.g);
      StoredExtends(fat.g, img1, lay1, fat.m.Img(), Lay(), at, d, n, full, clear);
      if lay1 != lay0 {
        StoredFromEmpty(fat.g, img0, img1, lay1.ch[0], fat.m.Img(), Lay(), d, n, full, clear);
      } else {
        StoredWeaker(fat.g, img0, lay0, fat.m.Img(), Lay(), at, d, n, full, clear);
      }
    }

    // fat_write once the file has a cluster: clip to the root directory, then write.
    method WriteBody(d: seq<byte>, clear: bool, ghost slip: nat) returns (n: nat, ghost full: bool)
      requires Ready(fat.m, fat.g) && SearchFrom(fat.lastAlloc, fat.g.clusterCount) && fat.g.sectorsPerCluster >= 1 && Lag(slip)
      requires Laid(fat.g, fat.m.Img(), Lay()) && CursorAt(fat.g, Lay(), At(slip), curCluster)
      requires rootFlag ==> size % SECTOR == 0
      requires !rootFlag ==> (Aligned(fat.g) || InSector(At(slip), |d|)) && (d != [] ==> At(slip) < Total(fat.g, Lay()))
      modifies this`position, this`curCluster, this`chain, fat`lastAlloc, fat.m, fat.m.buf
      ensures Ready(fat.m, fat.g) && |fat.m.dev| == old(|fat.m.dev|)
      ensures old(Sound(fat.m, fat.g)) || n > 0 ==>
        || Sound(fat.m, fat.g)
        || (fat.g.numFats < 2 && clear && !full && n == |d| > 0 && OnNewCluster(old(Lay()), slip))
      ensures position == old(position) + n
      ensures Stored(fat.g, old(fat.m.Img()), old(Lay()), fat.m.Img(), Lay(), old(At(slip)), d, n, full, clear)
      ensures Landed(slip, full, d != [])
      ensures full ==> chain != []
      ensures d == [] ==> Lay() == old(Lay())
    {
      hide Geometry.Valid, Table, Mirrored, Written, Laid, CursorAt, Secs, Stored, FreeSet, Index, Ready, Sound, Slip, Aligned;
      ReadyShape(fat.m, fat.g);
      ghost var img, lay, at := fat.m.Img(), Lay(), At(slip);
      LaidUsable(fat.g, img, lay);
      EmptyCursor(fat.g, img, lay, at, curCluster);
      RootTotal(fat.g, lay);
      var limit := if rootFlag && position + |d| > size then size - position else |d|;
      n, full := 0, false;
      WrittenNothing(fat.g, img, lay, at, clear);
      assert d[..0] == [];
      if limit > 0 {
        var sector, offset := SectorOffset(slip);
        var ended;
        n, ended := WriteRun(d, limit, sector, offset, clear, slip);
        full := ended;
        ReadyShape(fat.m, fat.g);
        CacheReady(fat.m, fat.g);
        WrittenLaid(fat.g, img, lay, fat.m.Img(), Lay(), at, d[..n], clear);
        if full {
          NotOnNew(fat.g, |chain|);
        }
      }
      LaidUsable(fat.g, fat.m.Img(), Lay());
      MakeLanded(slip, full, d != []);
      MakeStored(fat.g, img, lay, fat.m.Img(), Lay(), at, d, n, full, clear);
    }

    ghost predicate EntryStored(img: seq<byte>, mid: seq<byte>, updated: bool)
      reads this
    {
      if updated then
        && SECTOR * direntSector + direntOffset + DIRENT <= |mid|
        && img == WithEntry(mid, SECTOR * direntSector + direntOffset, size, firstCluster)
      else img == mid
    }

    // fat_file_sync: the entry's size and first cluster, written through to the device.
    method FileSync()
      requires Ready(fat.m, fat.g) && SECTOR * (direntSector + 1) <= |fat.m.dev|
      requires fat.g.FatEnd() <= direntSector && direntOffset + DIRENT <= SECTOR
      modifies fat.m, fat.m.buf
      ensures fat.m.Coherent() && |fat.m.dev| == old(|fat.m.dev|) && fat.m.dev == fat.m.Img()
      ensures fat.m.Img() == WithEntry(old(fat.m.Img()), SECTOR * direntSector + direntOffset, size, firstCluster)
    {
      hide Splice, Le16, Le32;
      fat.m.Patch(direntSector, direntOffset + 28, Le32(size % U32));
      fat.m.Patch(direntSector, direntOffset + 20, Le16(firstCluster / 0x1_0000 % 0x1_0000));
      fat.m.Patch(direntSector, direntOffset + 26, Le16(firstCluster % 0x1_0000));
      fat.m.Flush();
    }
  }

  lemma EntryKeepsFile(g: Geometry, img: seq<byte>, ch: seq<nat>, s: nat, o: nat, size: nat, first: nat)
    requires Laid(g, img, Chained(ch)) && g.FatEnd() <= s && o + DIRENT <= SECTOR && SECTOR * (s + 1) <= |img|
    requires forall c: nat :: c in ch ==> c >= 2 && !InCluster(g, c, SECTOR * s)
    ensures SameFile(g, img, WithEntry(img, SECTOR * s + o, size, first), Chained(ch))
  {
    hide Laid, InCluster, WithEntry, Data;
    OtherSectorKept(g, img, WithEntry(img, SECTOR * s + o, size, first), ch, s);
  }

  // sizeof(struct fat_sdirent)
  const DIRENT := 32

  /** The directory entry at `a` with its size and first-cluster fields set. */
  function WithEntry(img: seq<byte>, a: nat, size: nat, first: nat): (r: seq<byte>)
    requires a + DIRENT <= |img|
    ensures |r| == |img|
    ensures forall i {:trigger r[i]} :: 0 <= i < |img| && !(a + 20 <= i < a + 22) && !(a + 26 <= i < a + 32) ==> r[i] == img[i]
  {
    Splice(Splice(Splice(img, a + 28, Le32(size % U32)), a + 20, Le16(first / 0x1_0000 % 0x1_0000)), a + 26, Le16(first % 0x1_0000))
  }

  /** The fields read back as _fat_file_init reads them. */
  lemma EntryReadsBack(img: seq<byte>, a: nat, size: nat, first: nat)
    requires a + DIRENT <= |img| && size < U32 && first < U32
    ensures var r := WithEntry(img, a, size, first);
      Get32(r, a + 28) == size && Get16(r, a + 20) * 0x1_0000 + Get16(r, a + 26) == first
  {
    hide Splice, Get16, Get32, Le16, Le32;
    var s1 := Splice(img, a + 28, Le32(size));
    var s2 := Splice(s1, a + 20, Le16(first / 0x1_0000));
    var r := Splice(s2, a + 26, Le16(first % 0x1_0000));
    Get32OfSplice(img, a + 28, size);
    Get16OfSplice(s1, a + 20, first / 0x1_0000);
    Get16OfSplice(s2, a + 26, first % 0x1_0000);
    OtherSplice(s1, a + 20, Le16(first / 0x1_0000), a + 28);
    OtherSplice(s2, a + 26, Le16(first % 0x1_0000), a + 28);
    OtherSplice(s2, a + 26, Le16(first % 0x1_0000), a + 20);
  }

  /** Loading beside what was stored. */
  lemma OtherSplice(s: seq<byte>, o: nat, d: seq<byte>, p: nat)
    requires o + |d| <= |s| && p + 2 <= |s|
    ensures p + 2 <= o || o + |d| <= p ==> Get16(Splice(s, o, d), p) == Get16(s, p)
    ensures (p + 4 <= o || o + |d| <= p) && p + 4 <= |s| ==> Get32(Splice(s, o, d), p) == Get32(s, p)
  {
  }

  /** The bytes a file can come to hold: its clusters and all free ones, or the fixed root directory. */
  ghost function Capacity(g: Geometry, img: seq<byte>, lay: Layout): nat
    requires Laid(g, img, lay)
  {
    match lay
    case RootDir(_, count) => SECTOR * count
    case Chained(ch) => SECTOR * ((|ch| + Free(g, img)) * g.sectorsPerCluster)
  }

  /** A write stores what fits. */
  lemma StoredFits(g: Geometry, img: seq<byte>, lay: Layout, img': seq<byte>, lay': Layout,
      pos: nat, d: seq<byte>, n: nat, full: bool, clear: bool)
    requires Stored(g, img, lay, img', lay', pos, d, n, full, clear) && pos <= Total(g, lay)
    ensures pos <= Capacity(g, img, lay) && n == Min(|d|, Capacity(g, img, lay) - pos)
    ensures n == 0 && d != [] && lay.Chained? && (lay.ch != [] ==> pos < Total(g, lay)) ==> lay.ch == [] && Free(g, img) == 0
  {
    hide Geometry.Valid, Table, Mirrored, Frame, Free, Data, Index, ChainSectors;
    RootTotal(g, lay);
    StoredExtends(g, img, lay, img', lay', pos, d, n, full, clear);
    if lay.Chained? {
      var most := |lay.ch| + Free(g, img);
      MulMono(|lay.ch|, most, g.sectorsPerCluster);
      MulMono(|lay'.ch|, most, g.sectorsPerCluster);
      if most > 0 { MulMono(1, most, g.sectorsPerCluster); }
      assert Total(g, lay') == SECTOR * (|lay'.ch| * g.sectorsPerCluster);
      assert pos + n <= Total(g, lay');
      if full { MulMono(most, |lay'.ch|, g.sectorsPerCluster); }
    }
  }

  /**
   * Writing a buffer at any position inside a file, seeking back and reading returns what was stored:
   * the whole buffer if and only if it ends within the clusters of the file and the free ones.  With one
   * copy of the table a write that leaves a stale tag is left out, unless the seek back stays in the first
   * cluster and so looks nothing up.
   */
  method WriteSeekRead(f: File, d: seq<byte>, out: array<byte>) returns (n: nat)
    requires f.Settled() && (!f.rootFlag && f.chain == [] ==> Sound(f.fat.m, f.fat.g))
    requires f.DirentSafe() && out.Length >= |d| && out != f.fat.m.buf && d != []
    requires if f.rootFlag then f.position + |d| < U32
             else (Aligned(f.fat.g) || InSector(f.position, |d|)) && (f.chain != [] ==> f.position < f.Len())
    requires f.direntSector != 0 || f.size == 0 || f.rootFlag
    requires f.EndsOnNew(f.position, |d|) ==> f.position < f.fat.g.sectorsPerCluster * SECTOR
    modifies f, f.fat`lastAlloc, f.fat.m, f.fat.m.buf, out
    ensures n == |d| <==> old(f.position) + |d| <= old(f.Most())
    ensures n == (if old(f.position) + |d| <= old(f.Most()) then |d| else old(f.Most()) - old(f.position)) && out[..n] == d[..n]
    ensures f.position == old(f.position) + n && f.Settled() && (n > 0 ==> f.Valid())
  {
    hide Geometry.Valid, Table, Stored, Laid, CursorAt, Secs, WithEntry, Content, Free, Needed, Ready, Sound, Frame, Overwritten, Slip, Capacity;
    ghost var mid, full;
    ReadyShape(f.fat.m, f.fat.g);
    ghost var img, lay, size := f.fat.m.Img(), f.Lay(), f.size;
    var pos := f.position;
    LaidUsable(f.fat.g, img, lay);
    EmptyCursor(f.fat.g, img, lay, pos, f.curCluster);
    NoSlip(f.fat.g);
    n, full, mid := f.Write(d, 0);
    StoredFits(f.fat.g, img, lay, mid, f.Lay(), pos, d, n, full, size == 0 && lay != Chained([]));
    ReadBack(f.fat.g, img, lay, mid, f.Lay(), pos, d, n, full, size == 0 && lay != Chained([]));
    RootTotal(f.fat.g, lay);
    if n > 0 {
      var k := SeekAndRead(f, pos, n, out);
    }
  }

  /** After a write that ran full nothing is free. */
  lemma FullNone(g: Geometry, img: seq<byte>, lay: Layout, img': seq<byte>, lay': Layout,
      pos: nat, d: seq<byte>, n: nat, clear: bool)
    requires Stored(g, img, lay, img', lay', pos, d, n, true, clear) && pos <= Total(g, lay) && (lay != Chained([]) || Free(g, img) > 0)
    ensures lay.Chained? && lay'.Chained? && lay'.ch != [] && Laid(g, img', lay') && Free(g, img') == 0
    ensures Total(g, lay') == Capacity(g, img, lay) == Capacity(g, img', lay') == pos + n
  {
    hide Geometry.Valid, Table, Mirrored, Outside, Free, Data, Index, ChainSectors;
    FrameCount(g, img, lay.ch, img', lay'.ch);
  }

  lemma NoneTaken(g: Geometry, img: seq<byte>, lay: Layout, img': seq<byte>, lay': Layout,
      pos: nat, d: seq<byte>, n: nat, full: bool, clear: bool)
    requires Stored(g, img, lay, img', lay', pos, d, n, full, clear) && lay.Chained? && Free(g, img) == 0
    ensures Usable(g, lay) && Usable(g, lay') && Total(g, lay') == Total(g, lay)
  {
    hide Written, Laid, Free, Index, ChainSectors;
    StoredExtends(g, img, lay, img', lay', pos, d, n, full, clear);
  }

  // A write that runs full: the file takes all there is, and the cursor stays one cluster behind.
  method FillUp(f: File, d: seq<byte>)
    requires f.Settled() && !f.rootFlag && f.direntSector == 0 && Aligned(f.fat.g) && d != []
    requires (f.chain != [] ==> f.position < f.Len()) && (f.chain == [] ==> Sound(f.fat.m, f.fat.g) && f.Spare() > 0)
    requires f.Spare() < Needed(f.fat.g, f.Lay(), f.position, |d|)
    modifies f, f.fat`lastAlloc, f.fat.m, f.fat.m.buf
    ensures f.Running(SECTOR * f.fat.g.sectorsPerCluster) && f.chain != [] && f.Spare() == 0
    ensures f.Len() == f.position == old(f.Most())
  {
    hide Geometry.Valid, Table, Stored, Laid, CursorAt, Secs, Content, Free, Needed, Ready, Sound, Slip, Capacity, Data, File.Running;
    ReadyShape(f.fat.m, f.fat.g);
    ghost var img, lay, pos := f.fat.m.Img(), f.Lay(), f.position;
    LaidUsable(f.fat.g, img, lay);
    EmptyCursor(f.fat.g, img, lay, pos, f.curCluster);
    f.RunsSettled();
    var n;
    ghost var full, mid;
    n, full, mid := f.Write(d, 0);
    StoredIff(f.fat.g, img, lay, mid, f.Lay(), pos, d, n, full, f.size == 0 && lay != Chained([]));
    FullNone(f.fat.g, img, lay, mid, f.Lay(), pos, d, n, f.size == 0 && lay != Chained([]));
  }

  // The next write.
  method WriteLast(f: File, e: seq<byte>) returns (n: nat)
    requires f.Running(SECTOR * f.fat.g.sectorsPerCluster) && f.direntSector == 0 && Aligned(f.fat.g) && f.chain != []
    requires f.Spare() == 0 && f.position == f.Len() && f.fat.g.sectorsPerCluster >= 1
    requires |e| <= SECTOR * f.fat.g.sectorsPerCluster && f.position + |e| < U32
    modifies f, f.fat`lastAlloc, f.fat.m, f.fat.m.buf
    ensures f.Placed() && n == |e| && f.Len() == old(f.Len()) >= SECTOR * f.fat.g.sectorsPerCluster
    ensures f.Bytes()[f.Len() - SECTOR * f.fat.g.sectorsPerCluster..][..|e|] == e
  {
    hide Geometry.Valid, Table, Stored, Laid, CursorAt, Secs, Content, Free, Needed, Ready, Sound, Slip, Capacity, Data, File.Running;
    ghost var step := SECTOR * f.fat.g.sectorsPerCluster;
    f.RunningFacts(step);
    ReadyShape(f.fat.m, f.fat.g);
    ghost var img, lay, at := f.fat.m.Img(), f.Lay(), f.At(step);
    LaidUsable(f.fat.g, img, lay);
    LastStart(f.fat.g, f.chain);
    ghost var full, mid;
    n, full, mid := f.Write(e, step);
    LastStored(f.fat.g, img, lay, mid, f.Lay(), at, e, n, full, f.size == 0 && lay != Chained([]), step);
  }

  /** With nothing free, a write one cluster before the end stays in the last cluster. */
  lemma LastStored(g: Geometry, img: seq<byte>, lay: Layout, img': seq<byte>, lay': Layout,
      at: nat, e: seq<byte>, n: nat, full: bool, clear: bool, step: nat)
    requires Stored(g, img, lay, img', lay', at, e, n, full, clear) && lay.Chained? && Usable(g, lay)
    requires Free(g, img) == 0 && step <= Total(g, lay) && at == Total(g, lay) - step && |e| <= step
    ensures Laid(g, img', lay') && Total(g, lay') == Total(g, lay) && n == |e|
    ensures Data(g, img', lay')[Total(g, lay') - step..][..|e|] == e
  {
    hide Stored, Laid, Free, Data, Secs, Capacity;
    StoredExtends(g, img, lay, img', lay', at, e, n, full, clear);
    NoneLeft(g, img, lay.ch);
    StoredFits(g, img, lay, img', lay', at, e, n, full, clear);
    NoneTaken(g, img, lay, img', lay', at, e, n, full, clear);
    ReadBack(g, img, lay, img', lay', at, e, n, full, clear);
    var data, total := Data(g, img', lay'), Total(g, lay');
    assert data[total - step..][..|e|] == data[at..at + n];
  }

  lemma NoneLeft(g: Geometry, img: seq<byte>, ch: seq<nat>)
    requires Laid(g, img, Chained(ch)) && Free(g, img) == 0
    ensures Usable(g, Chained(ch)) && Capacity(g, img, Chained(ch)) == Total(g, Chained(ch))
  {
    hide Geometry.Valid, Table, ChainSectors, Free;
  }

  /** A write after one that ran full lands on the beginning of the last cluster, over what was there, and
      its whole length is reported. */
  method WriteOver(f: File, d: seq<byte>, e: seq<byte>) returns (n: nat)
    requires f.Settled() && !f.rootFlag && f.direntSector == 0 && Aligned(f.fat.g) && d != []
    requires (f.chain != [] ==> f.position < f.Len()) && (f.chain == [] ==> Sound(f.fat.m, f.fat.g) && f.Spare() > 0)
    requires f.Spare() < Needed(f.fat.g, f.Lay(), f.position, |d|)
    requires |e| <= SECTOR * f.fat.g.sectorsPerCluster && f.Most() + |e| < U32
    modifies f, f.fat`lastAlloc, f.fat.m, f.fat.m.buf
    ensures f.Placed() && n == |e| && f.Len() == old(f.Most()) >= SECTOR * f.fat.g.sectorsPerCluster
    ensures f.Bytes()[f.Len() - SECTOR * f.fat.g.sectorsPerCluster..][..|e|] == e
  {
    hide Geometry.Valid, Table, Laid, CursorAt, Secs, Content, Free, Needed, Ready, Sound, Slip, Capacity, Data, File.Running, Aligned;
    FillUp(f, d);
    f.RunningFacts(SECTOR * f.fat.g.sectorsPerCluster);
    n := WriteLast(f, e);
  }

  /** A volume of four clusters, two of them a file's.  The two free ones, 4 and 5, are never
      searched, so filling the file's last cluster to the end already runs the volume full. */
  function Tiny(): Geometry { Geometry(Fat12, 1, 1, 1, 1, 2, 4) }

  function TinyImage(): (img: seq<byte>)
    ensures |img| == SECTOR * 6 && Tiny().Valid(|img|)
  {
    seq(SECTOR * 6, i => if i == 512 then 0xF8 else if i == 513 || i == 514 || i == 517 then 0xFF else if i == 515 then 0x03 else if i == 516 then 0x80 else 0)
  }

  lemma TinyTable()
    ensures var t := Table(TinyImage(), Tiny()); t[2] == 3 && t[3] == 0xFF8 && t[4] == t[5] == 0
  {
    var img := TinyImage();
    assert img[515] == 0x03 && img[516] == 0x80 && img[517] == 0xFF && img[518] == img[519] == img[520] == 0;
    assert Get16(img, 515) == 0x8003 && Get16(img, 516) == 0xFF80 && Get16(img, 518) == 0 && Get16(img, 519) == 0;
  }

  lemma FullVolume()
    ensures Laid(Tiny(), TinyImage(), Chained([2, 3])) && Free(Tiny(), TinyImage()) == 0
    ensures Needed(Tiny(), Chained([2, 3]), 0, 1023) == 0 && Needed(Tiny(), Chained([2, 3]), 0, 1024) == 1
    ensures Capacity(Tiny(), TinyImage(), Chained([2, 3])) == 1024
  {
    TinyTable();
    hide Table, TinyImage;
    NoneFreeCount(Table(TinyImage(), Tiny()), 4);
  }

  // fat_lseek, then fat_read, of bytes the file has
  method SeekAndRead(f: File, pos: nat, len: nat, out: array<byte>) returns (n: nat)
    requires f.Placed() && 0 < len <= out.Length && out != f.fat.m.buf && f.CanWalk(pos)
    requires pos + len <= f.Len() && pos + len < U32 && (f.size != 0 ==> pos + len <= f.size)
    modifies f`position, f`curCluster, f.fat.m, f.fat.m.buf, out
    ensures f.Valid() && f.fat.m.Img() == old(f.fat.m.Img()) && n == len && f.position == pos + len
    ensures out[..len] == old(f.Bytes())[pos..pos + len]
  {
    hide Geometry.Valid, Table, Laid, CursorAt, Secs, Content, Ready, Sound, Splice;
    ReadyShape(f.fat.m, f.fat.g);
    ghost var data := f.Bytes();
    var r := f.LSeek(pos, SeekSet);
    n := f.Read(out, len);
    SoundReady(f.fat.m, f.fat.g) by { assert Sound(f.fat.m, f.fat.g); }
    SpliceHead(old(out[..]), data[pos..pos + len]);
  }

  lemma SpliceHead(s: seq<byte>, d: seq<byte>)
    requires |d| <= |s|
    ensures Splice(s, 0, d)[..|d|] == d
  {
  }

  /**
   * The rest of the disk across a write: any file sharing no cluster with the written one, and not
   * holding its directory entry, keeps its chain and every byte; the table copies stay equal.
   */
  lemma WriteKeepsOthers(g: Geometry, img: seq<byte>, lay: Layout, mid: seq<byte>, lay': Layout, pos: nat,
      d: seq<byte>, n: nat, full: bool, clear: bool, img': seq<byte>, s: nat, o: nat, size: nat, first: nat, other: seq<nat>)
    requires Stored(g, img, lay, mid, lay', pos, d, n, full, clear)
    requires Laid(g, img, Chained(other)) && (lay.Chained? ==> forall c :: c in other ==> c !in lay.ch)
    requires img' != mid ==>
      && g.FatEnd() <= s && o + DIRENT <= SECTOR && SECTOR * (s + 1) <= |mid|
      && img' == WithEntry(mid, SECTOR * s + o, size, first)
      && forall c: nat :: c in other ==> c >= 2 && !InCluster(g, c, SECTOR * s)
    ensures Laid(g, img', Chained(other)) && Data(g, img', Chained(other)) == Data(g, img, Chained(other))
    ensures Mirrored(img, g) ==> Mirrored(img', g)
  {
    hide Geometry.Valid, Table, Mirrored, InCluster, Data, Overwritten, WithEntry;
    OthersKept(g, img, lay, mid, lay', other);
    if img' != mid {
      OtherSectorKept(g, mid, img', other, s);
    }
  }

  /** `pos` is where a cluster ends, at the end of a chain of `n` clusters or after it. */
  predicate AtClusterEnd(g: Geometry, n: nat, pos: nat)
    requires g.sectorsPerCluster >= 1
  {
    pos >= SECTOR * (n * g.sectorsPerCluster) && pos % SECTOR == 0 && pos / SECTOR % g.sectorsPerCluster == 0
  }

  lemma NewClusterEnd(g: Geometry, n: nat, k: nat, pos: nat)
    requires g.sectorsPerCluster >= 1 && n <= k && pos == SECTOR * (k * g.sectorsPerCluster)
    ensures AtClusterEnd(g, n, pos)
  {
    MulMono(n, k, g.sectorsPerCluster);
    DivExact(k, 0, g.sectorsPerCluster);
  }

  /** A full chain does not end where its last cluster begins. */
  lemma NotOnNew(g: Geometry, n: nat)
    requires g.sectorsPerCluster >= 1 && n > 0
    ensures SECTOR * (n * g.sectorsPerCluster) != SECTOR * ((n - 1) * g.sectorsPerCluster)
  {
    MulSucc(n - 1, g.sectorsPerCluster);
  }

  lemma NotAtEnd(g: Geometry, lay: Layout, pos: nat)
    requires Usable(g, lay) && pos <= Total(g, lay)
    ensures pos % SECTOR != 0 ==> pos < Total(g, lay)
  {
  }

  lemma NewEnd(g: Geometry, n: nat, pos: nat)
    requires g.sectorsPerCluster >= 1 && n > 0 && EndOf(g, n - 1, pos)
    ensures Index(g, pos) == n && pos == SECTOR * (n * g.sectorsPerCluster)
  {
    DivExact(n, 0, g.sectorsPerCluster);
  }

  /** The cache is fit for the data area: a stale tag names a table sector. */
  ghost predicate Ready(m: SectorCache, g: Geometry)
    reads m, m.buf
  {
    && m.Shape() && g.Valid(|m.dev|)
    && (m.Coherent() || (!m.dirty && m.sector < g.FatEnd()))
  }

  /** A coherent cache is fit for everything; after zeroing a cluster it is fit for the data area. */
  lemma CacheReady(m: SectorCache, g: Geometry)
    requires m.Shape() && g.Valid(|m.dev|)
    ensures m.Coherent() ==> Ready(m, g) && Sound(m, g)
    ensures Sound(m, g) ==> Ready(m, g)
  {
    hide Geometry.Valid, SectorCache.Img;
  }

  lemma ClearedReady(m: SectorCache, g: Geometry, cluster: nat)
    requires m.Shape() && g.Valid(|m.dev|) && cluster < g.Entries()
    ensures m.Coherent() ==> Ready(m, g) && Sound(m, g)
    ensures ClearedTag(m, g, cluster) ==> Ready(m, g) && (g.numFats >= 2 ==> Sound(m, g))
  {
    if ClearedTag(m, g, cluster) {
      LastInCopy(g, |m.dev|, g.numFats - 1, cluster);
    }
    hide Geometry.Valid, SectorCache.Img, LastSector;
    if g.numFats >= 2 { MulMono(1, g.numFats - 1, g.fatSize); }
  }

  lemma SoundReady(m: SectorCache, g: Geometry)
    requires Sound(m, g)
    ensures m.Shape() && g.Valid(|m.dev|) && Ready(m, g)
  {
  }

  lemma ReadyShape(m: SectorCache, g: Geometry)
    requires Ready(m, g)
    ensures m.Shape() && g.Valid(|m.dev|)
  {
  }

  // One turn of fat_read's copy: load the sector, copy part of it out.
  method CopyFromSector(m: SectorCache, g: Geometry, s: nat, offset: nat, chunk: nat, out: array<byte>, at: nat)
    requires Ready(m, g) && SECTOR * (s + 1) <= |m.dev| && g.FatEnd() <= s
    requires offset + chunk <= SECTOR && out != m.buf && at + chunk <= out.Length
    modifies m, m.buf, out
    ensures m.Coherent() && Sound(m, g) && m.Img() == old(m.Img())
    ensures SECTOR * (s + 1) <= |m.dev| && |m.dev| == |m.Img()|
    ensures out[..] == Splice(old(out[..]), at, Sector(m.Img(), s)[offset..offset + chunk])
  {
    m.Get(s);
    CopyInto(out, at, m.buf[..], offset, chunk);
  }

  // One turn of fat_write's copy: load the sector unless all of it is written, copy in, mark dirty.
  method CopyToSector(m: SectorCache, g: Geometry, s: nat, offset: nat, chunk: nat, d: seq<byte>, from: nat)
    requires Ready(m, g) && SECTOR * (s + 1) <= |m.dev| && g.FatEnd() <= s
    requires offset + chunk <= SECTOR && from + chunk <= |d|
    modifies m, m.buf
    ensures m.Coherent() && |m.dev| == old(|m.dev|)
    ensures m.Img() == Splice(old(m.Img()), SECTOR * s + offset, d[from..from + chunk])
  {
    ghost var img := m.Img();
    if chunk < SECTOR {
      m.Get(s);
    } else {
      m.Flush();
    }
    ghost var dev, was := m.dev, m.buf[..];
    CopyInto(m.buf, offset, d, from, chunk);
    m.Put(s);
    if chunk < SECTOR {
      PatchedOverlay(dev, img, s, was, offset, d[from..from + chunk]);
    }
  }
}
