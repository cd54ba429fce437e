/** Physical memory as the kernel uses it, and the code of `map` and `trans` (vms.c). */
module Memory {
  import opened Bytes
  import opened Options
  import opened PageTables
  import opened Mapping
  import Blocks
  import Buddy
  import opened FreePages

  /** `map` panics in the other cases. */
  datatype Outcome = Done | DoubleMap | NoMemory

  // The 64-bit words of a page.
  function Words(b: seq<byte>): (w: seq<nat>)
    requires |b| == PGSIZE
    ensures |w| == ENTRIES
  {
    seq(ENTRIES, i requires 0 <= i < ENTRIES => Get32(b, 8 * i) + 0x1_0000_0000 * Get32(b, 8 * i + 4))
  }

  predicate Zeros(b: seq<byte>) {
    |b| == PGSIZE && forall i :: 0 <= i < PGSIZE ==> b[i] == 0
  }

  lemma WordsOfZeros(b: seq<byte>)
    requires Zeros(b)
    ensures Blank(Words(b))
  {
    forall i | 0 <= i < ENTRIES
      ensures Words(b)[i] == 0
    {
      assert Get16(b, 8 * i) == 0 && Get16(b, 8 * i + 2) == 0 && Get16(b, 8 * i + 4) == 0 && Get16(b, 8 * i + 6) == 0;
    }
  }

  /** How many pages the allocator has. */
  ghost function Left(free: map<nat, seq<byte>>): nat {
    |free|
  }

  /** Turns of the outer loop of `map`. */
  function Turns(size: nat): nat {
    (size + PGSIZE - 1) / PGSIZE
  }

  /** Every byte of the range translates to its place from `pa` on. */
  ghost predicate Translates(t: Tables, root: nat, va: nat, pa: nat, size: nat) {
    forall b: nat :: b < size ==> TranslatesByte(t, root, va, pa, b)
  }

  ghost predicate TranslatesByte(t: Tables, root: nat, va: nat, pa: nat, b: nat) {
    Walk(t, root, 2, va + b).Some? && Physical(Walk(t, root, 2, va + b).value, va + b) == pa + b
  }

  /** The bytes of one mapped page are displaced by the difference of the page offsets. */
  lemma MappedByte(s: Space, s': Space, root: nat, va: nat, pa: nat, size: nat, perm: nat, b: nat)
    requires Perm(perm) && Root(s, root) && va + size <= SPACE && pa + size <= PAGES * PGSIZE && b < size
    requires Mapped(s, s', root, va / PGSIZE, Turns(size), pa, perm)
    ensures va % PGSIZE + b < PGSIZE * Turns(size) ==>
      && Walk(s'.t, root, 2, va + b).Some?
      && Passes(Walk(s'.t, root, 2, va + b).value) && Readable(Walk(s'.t, root, 2, va + b).value)
      && Physical(Walk(s'.t, root, 2, va + b).value, va + b) == pa - pa % PGSIZE + va % PGSIZE + b
    ensures va % PGSIZE + b >= PGSIZE * Turns(size) ==> Walk(s'.t, root, 2, va + b) == Walk(s.t, root, 2, va + b)
  {
    hide Walk, Leaf, Ppn, Passes, Readable, Writable;
    var k := (va + b) / PGSIZE - va / PGSIZE;
    assert Walk(s'.t, root, 2, va + b) == After(s, root, va / PGSIZE, Turns(size), pa, perm, root, va + b);
    if k < Turns(size) {
      LeafFields(pa + k * PGSIZE, perm);
      assert (pa + k * PGSIZE) / PGSIZE == pa / PGSIZE + k;
    }
  }

  /** `map` reaches every byte of a fresh range, at its place, exactly when the two addresses have
      the same offset in a page and the range does not run over one page more than it fills. */
  lemma MapTranslatesWhen(s: Space, s': Space, root: nat, va: nat, pa: nat, size: nat, perm: nat)
    requires Perm(perm) && Root(s, root) && va + size <= SPACE && pa + size <= PAGES * PGSIZE
    requires Mapped(s, s', root, va / PGSIZE, Turns(size), pa, perm)
    requires forall v: nat :: va <= v < va + size ==> Walk(s.t, root, 2, v) == None
    ensures Translates(s'.t, root, va, pa, size) <==>
      size == 0 || (va % PGSIZE == pa % PGSIZE && va % PGSIZE + (size - 1) % PGSIZE < PGSIZE)
  {
    hide Walk, Ppn, Mapped;
    if size > 0 {
      MappedByte(s, s', root, va, pa, size, perm, 0);
      MappedByte(s, s', root, va, pa, size, perm, size - 1);
      if Translates(s'.t, root, va, pa, size) {
        assert TranslatesByte(s'.t, root, va, pa, 0) && TranslatesByte(s'.t, root, va, pa, size - 1);
      }
      if va % PGSIZE == pa % PGSIZE && va % PGSIZE + (size - 1) % PGSIZE < PGSIZE {
        forall b: nat | b < size ensures TranslatesByte(s'.t, root, va, pa, b) {
          MappedByte(s, s', root, va, pa, size, perm, b);
        }
      }
    }
  }

  /** Tables, data pages and free pages are apart.  Free pages read as zeros: `map` does not clear the
      page it takes for a table. */
  ghost predicate Good(s: Space, frames: map<nat, seq<byte>>, free: map<nat, seq<byte>>) {
    && Tree(s) && s.t.Keys !! frames.Keys !! free.Keys
    && (forall p :: p in free ==> p < PAGES && Zeros(free[p]))
    && (forall p :: p in frames ==> p < PAGES && |frames[p]| == PGSIZE)
  }

  /** A page from the middle of one page to the beginning of another is not reached at its place, and one
      from the middle to the middle not to its end. */
  lemma HalfPages(s: Space, s': Space, root: nat, perm: nat)
    requires Perm(perm) && Root(s, root) && forall v: nat :: Walk(s.t, root, 2, v) == None
    ensures Mapped(s, s', root, 1, 1, 0x5000, perm) ==> !Translates(s'.t, root, 0x1800, 0x5000, PGSIZE)
    ensures Mapped(s, s', root, 1, 1, 0x5800, perm) ==> !Translates(s'.t, root, 0x1800, 0x5800, PGSIZE)
  {
    hide Walk, Mapped, Translates;
    if Mapped(s, s', root, 1, 1, 0x5000, perm) {
      MapTranslatesWhen(s, s', root, 0x1800, 0x5000, PGSIZE, perm);
    }
    if Mapped(s, s', root, 1, 1, 0x5800, perm) {
      MapTranslatesWhen(s, s', root, 0x1800, 0x5800, PGSIZE, perm);
    }
  }

  /** The free pages are those of the allocator's free blocks, counted from page `first`. */
  ghost predicate Owned(b: Blocks.State, first: nat, free: map<nat, seq<byte>>) {
    && Blocks.Valid(b) && first + Blocks.NPAGE <= PAGES
    && forall p: nat :: p in free <==> first <= p && Covered(b, p - first)
  }

  /** No free block holds `size` bytes. */
  ghost predicate NoBlock(b: Blocks.State, size: nat) {
    forall p :: p in b.blocks && b.blocks[p].free ==> PGSIZE * Blocks.Pow2(b.blocks[p].order) < size
  }

  /** The free pages without `n` from `base` on. */
  function Outside(free: map<nat, seq<byte>>, base: nat, n: nat): map<nat, seq<byte>> {
    map p | p in free && !(base <= p < base + n) :: free[p]
  }

  /** With no page free there is no free block. */
  lemma NoPageNoBlock(b: Blocks.State, first: nat, free: map<nat, seq<byte>>, size: nat)
    requires Owned(b, first, free)
    ensures free != map[] || NoBlock(b, size)
  {
    hide Blocks.Valid;
    if !NoBlock(b, size) {
      var p :| p in b.blocks && b.blocks[p].free && PGSIZE * Blocks.Pow2(b.blocks[p].order) >= size;
      BlockPage(b, first, free, p);
    }
  }

  lemma BlockPage(b: Blocks.State, first: nat, free: map<nat, seq<byte>>, p: nat)
    requires Owned(b, first, free) && p in b.blocks && b.blocks[p].free
    ensures first + p in free
  {
    hide Blocks.Valid;
    assert InBlock(b, p, p);
    assert Covered(b, first + p - first);
  }

  /** An allocation takes the pages of a block from the free ones. */
  lemma OwnedTaken(b: Blocks.State, first: nat, free: map<nat, seq<byte>>, order: nat, size: nat)
    requires Owned(b, first, free) && Blocks.Allocate(b, order).Got? && size < Buddy.WIDE
    requires Buddy.OrderFor(if size >= PGSIZE then size else PGSIZE, order)
    ensures var p, n := Blocks.Allocate(b, order).page, Blocks.Pow2(order);
      && Owned(Blocks.Allocate(b, order).s, first, Outside(free, first + p, n))
      && Turns(size) <= n && (n > 1 ==> PGSIZE * (n / 2) < size) && first + p + n <= PAGES && !NoBlock(b, size) && (size <= PGSIZE ==> n == 1)
      && forall x :: first + p <= x < first + p + n ==> x in free
  {
    hide Blocks.Valid, Covered, Blocks.Allocate, Blocks.Pow2;
    AllocatePages(b, order);
    BlockTaken(b, order);
    Buddy.LargeEnough(size, order);
    Buddy.LeastOrder(size, order);
    HalfPower(order);
    if size <= PGSIZE { OnePage(order); }
  }

  lemma HalfPower(order: nat)
    ensures Blocks.Pow2(order) > 1 ==> order > 0 && Blocks.Pow2(order) / 2 == Blocks.Pow2(order - 1)
  {
  }

  lemma OnePage(order: nat)
    requires Buddy.OrderFor(PGSIZE, order)
    ensures order == 0 && Blocks.Pow2(order) == 1
  {
  }

  /** The block taken from was free and large enough. */
  lemma BlockTaken(b: Blocks.State, order: nat)
    requires Blocks.Valid(b) && Blocks.Allocate(b, order).Got?
    ensures order <= Blocks.TOP
    ensures exists p :: p in b.blocks && b.blocks[p].free && Blocks.Pow2(order) <= Blocks.Pow2(b.blocks[p].order)
  {
    Blocks.AllocateSpec(b, order);
    var p :| p in b.blocks && b.blocks[p].free && b.blocks[p].order >= order;
    Blocks.Pow2Mono(order, b.blocks[p].order);
  }

  lemma NoneTaken(b: Blocks.State, order: nat, size: nat)
    requires Blocks.Valid(b) && Blocks.Allocate(b, order).OutOfMemory? && size < Buddy.WIDE
    requires Buddy.OrderFor(if size >= PGSIZE then size else PGSIZE, order)
    ensures NoBlock(b, size)
  {
    Blocks.AllocateSpec(b, order);
    Buddy.TooSmall(b, order, size);
  }

  /** A free page becomes a table. */
  lemma PageTaken(s: Space, s': Space, frames: map<nat, seq<byte>>, free: map<nat, seq<byte>>, c: nat)
    requires Good(s, frames, free) && c in free && Tree(s') && s'.t.Keys == s.t.Keys + {c}
    ensures Good(s', frames, free - {c}) && c !in s.t && c < PAGES && Zeros(free[c])
  {
    hide Tree, Zeros;
  }

  lemma EntryGood(s: Space, frames: map<nat, seq<byte>>, free: map<nat, seq<byte>>, a: nat, i: nat, p: nat)
    requires Good(s, frames, free) && Usable(s.t, a) && i < ENTRIES && Tree(Stored(s, a, i, p))
    ensures Good(Stored(s, a, i, p), frames, free)
  {
    hide Tree, Zeros, Put;
    assert Stored(s, a, i, p).t.Keys == s.t.Keys;
  }

  lemma TableTaken(s: Space, frames: map<nat, seq<byte>>, free: map<nat, seq<byte>>, a: nat, i: nat, c: nat, perm: nat)
    requires Good(s, frames, free) && c in free && Perm(perm)
    requires Usable(s.t, a) && a in s.tier && s.tier[a] > 0 && i < ENTRIES && !Uses(s, a, i)
    ensures |free[c]| == PGSIZE && c !in s.t && c < PAGES && Blank(Words(free[c]))
    ensures Good(Linked(s, a, i, c, Words(free[c]), perm), frames, free - {c})
  {
    hide Tree, Link, Valid, Words, Put;
    WordsOfZeros(free[c]);
    LinkedTree(s, a, i, c, Words(free[c]), perm);
    PageTaken(s, Linked(s, a, i, c, Words(free[c]), perm), frames, free, c);
  }

  class Memory {
    var tables: Tables
    var frames: map<nat, seq<byte>>     // pages given out for data
    var free: map<nat, seq<byte>>       // pages the allocator still has
    const first: nat                    // the first page it manages
    var blocks: Blocks.State            // its blocks, which Buddy represents
    ghost var tier: map<nat, nat>

    ghost function Spaces(): Space
      reads this
    {
      Space(tables, tier)
    }

    ghost predicate Ok()
      reads this
    {
      Good(Spaces(), frames, free) && Owned(blocks, first, free)
    }

    /** Pages only ever leave the free list. */
    twostate predicate Draws()
      reads this
    {
      && free.Keys <= old(free).Keys && (forall p :: p in free ==> free[p] == old(free)[p])
      && tables.Keys <= old(tables).Keys + (old(free).Keys - free.Keys)
    }

    // kalloc: a free block of the least order that holds the size, or a part of a larger one
    method Kalloc(size: nat) returns (ok: bool, base: nat, n: nat)
      requires Ok() && size < Buddy.WIDE
      modifies this`free, this`blocks
      ensures Ok() && (ok <==> !NoBlock(old(blocks), size))
      ensures ok ==> free == Outside(old(free), base, n) && Turns(size) <= n && base + n <= PAGES && (size <= PGSIZE ==> n == 1)
      ensures ok && n > 1 ==> PGSIZE * (n / 2) < size
      ensures ok ==> forall p :: base <= p < base + n ==> p in old(free)
      ensures !ok ==> free == old(free) && blocks == old(blocks)
    {
      hide Good, Blocks.Valid, Covered, Blocks.Allocate, Blocks.Pow2, Buddy.OrderFor, NoBlock, Owned, Outside;
      OwnedValid(this);
      var order := Buddy.Size2Order(if size >= PGSIZE then size else PGSIZE);
      match Blocks.Allocate(blocks, order)
      case OutOfMemory =>
        NoneTaken(blocks, order, size);
        ok, base, n := false, 0, 0;
      case Got(page, s) =>
        ok, base, n := true, first + page, Blocks.Pow2(order);
        OwnedTaken(blocks, first, free, order, size);
        FewerGood(Spaces(), frames, free, base, n);
        blocks, free := s, Outside(free, base, n);
    }

    // kalloc of one page
    method KallocPage() returns (ok: bool, c: nat)
      requires Ok()
      modifies this`free, this`blocks
      ensures Ok() && (ok <==> old(free) != map[])
      ensures ok ==> c in old(free) && free == old(free) - {c} && Left(free) == old(Left(free)) - 1 && c < PAGES
      ensures !ok ==> free == old(free)
    {
      hide Good, Owned, NoBlock;
      PageOrNone(this);
      var n;
      ok, c, n := Kalloc(PGSIZE);
      if ok {
        OneLess(old(free), c);
        assert free == old(free) - {c};
      }
    }

    // A page becomes the table below entry `i`; nothing clears it.
    method NewTable(a: nat, level: nat, i: nat, perm: nat) returns (ok: bool, c: nat)
      requires Ok() && Usable(tables, a) && a in tier && tier[a] == level > 0 && i < ENTRIES && !Uses(Spaces(), a, i) && Perm(perm)
      modifies this`tables, this`free, this`tier, this`blocks
      ensures Ok() && Draws() && old(Left(free)) <= Left(free) + 1
      ensures !ok ==> Spaces() == old(Spaces()) && free == old(free) == map[]
      ensures ok ==>
        && c !in old(tables) && c < PAGES && c in tables && Blank(tables[c])
        && Spaces() == Linked(old(Spaces()), a, i, c, tables[c], perm)
    {
      hide Good, Owned, Blank, Link, Valid, Left, Words, Put;
      ghost var s := Spaces();
      var pages := free;
      ok, c := KallocPage();
      if ok {
        TableTaken(s, frames, pages, a, i, c, perm);
        tier := tier[c := level - 1];
        tables := tables[a := Put(tables[a], i, Link(c, perm))][c := Words(pages[c])];
      }
    }

    // The store of a leaf entry.
    method StoreEntry(a: nat, i: nat, p: nat)
      requires Ok() && Usable(tables, a) && i < ENTRIES && Tree(Stored(Spaces(), a, i, p))
      modifies this`tables
      ensures Ok() && Draws() && Spaces() == Stored(old(Spaces()), a, i, p)
    {
      hide Good, Owned, Put;
      EntryGood(Spaces(), frames, free, a, i, p);
      tables := tables[a := Put(tables[a], i, p)];
    }

    // A table missing on the path of `va`
    method LinkTable(ghost s: Space, pg: nat, va: nat, pa: nat, perm: nat, level: nat, a: nat) returns (ok: bool, c: nat)
      requires Ok() && va < SPACE && Perm(perm) && 0 < level <= 2 && Going(s, Spaces(), pg, va, pa, perm, level, a)
      requires Usable(tables, a) && !Valid(tables[a][Px(level, va)])
      modifies this`tables, this`free, this`tier, this`blocks
      ensures Ok() && Draws() && old(Left(free)) <= Left(free) + 1
      ensures !ok ==> Spaces() == old(Spaces()) && free == old(free) == map[]
      ensures ok ==> Going(s, Spaces(), pg, va, pa, perm, level - 1, c)
    {
      hide Tree, Maps, Walk, TableAt, Valid, Ppn, Px, Link, Leaf, Blank, Going, Left;
      ghost var s1 := Spaces();
      GoingAt(s, s1, pg, va, pa, perm, level, a);
      ok, c := NewTable(a, level, Px(level, va), perm);
      if ok {
        GoingTree(s, s1, pg, va, pa, perm, level, a);
        GoingLinked(s, s1, pg, va, pa, perm, level, a, c, tables[c]);
      }
    }

    // The leaf entry of `va`
    method StoreLeaf(ghost s: Space, pg: nat, va: nat, pa: nat, perm: nat, a: nat)
      requires Ok() && va < SPACE && pa < PAGES * PGSIZE && Perm(perm) && Going(s, Spaces(), pg, va, pa, perm, 0, a)
      requires Usable(tables, a)
      modifies this`tables
      ensures Ok() && Draws() && Maps(s, Spaces(), pg, va / PGSIZE, 1, pa, perm)
    {
      hide Tree, Maps, Ppn, Px, Leaf, Going;
      GoingStored(s, Spaces(), pg, va, pa, perm, a);
      StoreEntry(a, Px(0, va), Leaf(pa, perm));
    }

    // The inner loop of map
    method MapPage(pg: nat, va: nat, pa: nat, perm: nat) returns (out: Outcome)
      requires Ok() && Root(Spaces(), pg) && va < SPACE && pa < PAGES * PGSIZE && Perm(perm)
      modifies this`tables, this`free, this`tier, this`blocks
      ensures Ok() && Draws() && old(Left(free)) <= Left(free) + 2
      ensures Maps(old(Spaces()), Spaces(), pg, va / PGSIZE, if out.Done? then 1 else 0, pa, perm)
      ensures out.DoubleMap? <==> Walk(old(tables), pg, 2, va).Some?
      ensures out.NoMemory? ==> free == map[] && old(Left(free)) <= 1
    {
      hide Tree, Maps, Walk, Valid, Ppn, Px, Going, Ok, Left;
      ghost var s := Spaces();
      var level: int, a := 2, pg;
      GoingStart(this, pg, va, pa, perm);
      while level >= 0
        invariant -1 <= level <= 2 && Ok() && Draws()
        invariant old(Left(free)) <= Left(free) + if level < 0 then 2 else 2 - level
        invariant level >= 0 ==> Going(s, Spaces(), pg, va, pa, perm, level, a)
        invariant level < 0 ==> Maps(s, Spaces(), pg, va / PGSIZE, 1, pa, perm) && Walk(s.t, pg, 2, va) == None
      {
        GoingAt(s, Spaces(), pg, va, pa, perm, level, a);
        var p := tables[a][Px(level, va)];
        if Valid(p) && level == 0 {
          return DoubleMap;
        } else if Valid(p) {
          a := Ppn(p);
        } else if level != 0 {
          var ok, c := LinkTable(s, pg, va, pa, perm, level, a);
          if !ok {
            NoneLeft(this);
            return NoMemory;
          }
          a := c;
        } else {
          StoreLeaf(s, pg, va, pa, perm, a);
        }
        level := level - 1;
      }
      out := Done;
    }

    // map.  `done` counts the pages mapped before a panic.
    method Map(pg: nat, va: nat, pa: nat, size: nat, perm: nat) returns (out: Outcome, done: nat)
      requires Ok() && Root(Spaces(), pg) && va + size <= SPACE && pa + size <= PAGES * PGSIZE && Perm(perm)
      modifies this`tables, this`free, this`tier, this`blocks
      ensures Ok() && Draws() && Extends(old(Spaces()), Spaces(), pg)
      ensures Mapped(old(Spaces()), Spaces(), pg, va / PGSIZE, done, pa, perm) && Made(old(Spaces()), Spaces(), perm)
      ensures done <= Turns(size) && (out.Done? <==> done == Turns(size))
      ensures forall k :: 0 <= k < done ==> Walk(old(tables), pg, 2, Nth(va, k)) == None
      ensures !out.Done? ==> (out.DoubleMap? <==> Walk(old(tables), pg, 2, Nth(va, done)).Some?)
      ensures out.NoMemory? ==> free == map[] && old(Left(free)) < 2 * Turns(size)
    {
      hide Tree, Maps, Walk, Ok, Left;
      ghost var s := Spaces();
      NothingMapped(this, pg, va, pa, perm);
      done := 0;
      var va0, pa0 := va, pa;
      while va0 < va + size
        invariant done <= Turns(size) && va0 == Nth(va, done) && pa0 == pa + done * PGSIZE && va0 < va + size + PGSIZE
        invariant Ok() && Draws() && Maps(s, Spaces(), pg, va / PGSIZE, done, pa, perm)
        invariant old(Left(free)) <= Left(free) + 2 * done
        invariant forall k :: 0 <= k < done ==> Walk(s.t, pg, 2, Nth(va, k)) == None
      {
        ghost var s1 := Spaces();
        NextPage(s, s1, pg, va, done, pa, perm);
        out := MapPage(pg, va0, pa0, perm);
        if !out.Done? {
          MapsLinked(s, s1, Spaces(), pg, va / PGSIZE, done, pa, perm, pa0);
          MapsParts(s, Spaces(), pg, va / PGSIZE, done, pa, perm);
          return;
        }
        MapsStep(s, s1, Spaces(), pg, va / PGSIZE, done, pa, perm);
        va0 := va0 + PGSIZE;
        pa0 := pa0 + PGSIZE;
        done := done + 1;
      }
      MapsParts(s, Spaces(), pg, va / PGSIZE, done, pa, perm);
      out := Done;
    }

    // trans: the entry, or None where the source panics
    method Trans(pg: nat, va: nat) returns (p: Option<nat>)
      requires Ok() && Root(Spaces(), pg)
      ensures p == Walk(tables, pg, 2, va)
    {
      hide Px, Passes, Ppn;
      var level, a := 2, pg;
      while true
        invariant 0 <= level <= 2 && a in tier && tier[a] == level
        invariant Walk(tables, pg, 2, va) == Walk(tables, a, level, va)
        decreases level
      {
        var e := tables[a][Px(level, va)];
        if !Passes(e) {
          return None;
        }
        if level == 0 {
          return Some(e);
        }
        assert Uses(Spaces(), a, Px(level, va)) by { PassesUses(Spaces(), a, Px(level, va)); }
        level := level - 1;
        a := Ppn(e);
      }
    }
  }

  function Nth(va: nat, k: nat): nat {
    va + k * PGSIZE
  }

  lemma PassesUses(s: Space, a: nat, i: nat)
    requires Usable(s.t, a) && i < ENTRIES && Passes(s.t[a][i])
    ensures Uses(s, a, i)
  {
  }

  lemma OwnedValid(mem: Memory)
    requires mem.Ok()
    ensures Blocks.Valid(mem.blocks) && |mem.blocks.lists| == Blocks.ORDERS && Good(mem.Spaces(), mem.frames, mem.free)
    ensures Owned(mem.blocks, mem.first, mem.free)
  {
    hide Good;
  }

  /** Pages leave the allocator. */
  lemma FewerGood(s: Space, frames: map<nat, seq<byte>>, free: map<nat, seq<byte>>, base: nat, n: nat)
    requires Good(s, frames, free)
    ensures Good(s, frames, Outside(free, base, n))
  {
    hide Tree, Zeros;
  }

  /** A page can be had if and only if one is free. */
  lemma PageOrNone(mem: Memory)
    requires mem.Ok()
    ensures NoBlock(mem.blocks, PGSIZE) <==> mem.free == map[]
  {
    hide Good, Blocks.Valid;
    if mem.free == map[] {
      NoPageNoBlock(mem.blocks, mem.first, mem.free, PGSIZE);
    } else {
      var p :| p in mem.free;
      var b :| InBlock(mem.blocks, b, p - mem.first);
      assert PGSIZE * Blocks.Pow2(mem.blocks.blocks[b].order) >= PGSIZE;
    }
  }

  lemma OneLess(m: map<nat, seq<byte>>, c: nat)
    requires c in m
    ensures |m - {c}| == |m| - 1
  {
    assert (m - {c}).Keys == m.Keys - {c};
  }

  lemma NoneLeft(mem: Memory)
    ensures mem.free == map[] ==> Left(mem.free) == 0
  {
  }

  lemma NothingMapped(mem: Memory, pg: nat, va: nat, pa: nat, perm: nat)
    requires mem.Ok() && Root(mem.Spaces(), pg) && Perm(perm)
    ensures Maps(mem.Spaces(), mem.Spaces(), pg, va / PGSIZE, 0, pa, perm)
  {
    hide Maps, Tree;
    MapsNothing(mem.Spaces(), pg, va / PGSIZE, pa, perm);
  }

  lemma MapsParts(s: Space, s': Space, pg: nat, lo: nat, n: nat, pa: nat, perm: nat)
    requires Perm(perm) && Maps(s, s', pg, lo, n, pa, perm)
    ensures Extends(s, s', pg) && Mapped(s, s', pg, lo, n, pa, perm) && Made(s, s', perm)
  {
  }

  lemma NextPage(s: Space, s1: Space, pg: nat, va: nat, k: nat, pa: nat, perm: nat)
    requires Perm(perm) && Maps(s, s1, pg, va / PGSIZE, k, pa, perm) && Nth(va, k) < SPACE
    ensures Nth(va, k) / PGSIZE == va / PGSIZE + k
    ensures Walk(s1.t, pg, 2, Nth(va, k)) == Walk(s.t, pg, 2, Nth(va, k)) && Root(s1, pg)
  {
    hide Tree, Walk, Leaf, Made;
    assert Nth(va, k) / PGSIZE == va / PGSIZE + k;
    assert Walk(s1.t, pg, 2, Nth(va, k)) == After(s, pg, va / PGSIZE, k, pa, perm, pg, Nth(va, k));
  }

  /** The inner loop stands at table `a` on the path of `va`; no translation has changed yet. */
  ghost predicate Going(s: Space, s1: Space, pg: nat, va: nat, pa: nat, perm: nat, level: int, a: nat)
    requires Perm(perm)
  {
    0 <= level <= 2 && Maps(s, s1, pg, va / PGSIZE, 0, pa, perm) && TableAt(s1.t, pg, 2, level, va) == Some(a)
  }

  lemma GoingStart(mem: Memory, pg: nat, va: nat, pa: nat, perm: nat)
    requires mem.Ok() && Root(mem.Spaces(), pg) && Perm(perm)
    ensures Going(mem.Spaces(), mem.Spaces(), pg, va, pa, perm, 2, pg)
  {
    hide Maps;
    NothingMapped(mem, pg, va, pa, perm);
  }

  /** What the entry at `a` says about the rest of the path and about the walk before the call. */
  lemma GoingAt(s: Space, s1: Space, pg: nat, va: nat, pa: nat, perm: nat, level: nat, a: nat)
    requires Perm(perm) && Going(s, s1, pg, va, pa, perm, level, a) && va < SPACE
    ensures Root(s1, pg) && a in s1.tier && s1.tier[a] == level && Usable(s1.t, a)
    ensures Uses(s1, a, Px(level, va)) <==> Valid(s1.t[a][Px(level, va)])
    ensures var p := s1.t[a][Px(level, va)];
      && (Valid(p) && level > 0 ==> Going(s, s1, pg, va, pa, perm, level - 1, Ppn(p)))
      && (!Valid(p) ==> Walk(s.t, pg, 2, va) == None)
      && (Valid(p) && level == 0 ==> Walk(s.t, pg, 2, va) == Some(p))
    ensures !Valid(s1.t[a][Px(level, va)]) || level == 0 ==> Maps(s, s1, pg, va / PGSIZE, 0, pa, perm)
  {
    hide Ppn, Px, Passes, Valid, Leaf, Made;
    assert Root(s1, pg);
    TableTier(s1, pg, level, va);
    PathEnds(s1, pg, level, va);
    if level > 0 {
      TableBelow(s1, pg, level, va);
    } else {
      WalkAt(s1, pg, va);
    }
  }

  lemma GoingLinked(s: Space, s1: Space, pg: nat, va: nat, pa: nat, perm: nat, level: nat, a: nat, c: nat, w: seq<nat>)
    requires Perm(perm) && Going(s, s1, pg, va, pa, perm, level, a) && va < SPACE && level > 0
    requires Usable(s1.t, a) && !Valid(s1.t[a][Px(level, va)]) && c !in s1.t && c < PAGES && Blank(w)
    requires a in s1.tier && s1.tier[a] == level
    requires Tree(s1) && Root(s1, pg)
    ensures Going(s, Linked(s1, a, Px(level, va), c, w, perm), pg, va, pa, perm, level - 1, c)
  {
    hide Maps, Tree, Ppn, Px, Passes, Valid, Link, Leaf, Blank, TableAt, Walk;
    GoingAt(s, s1, pg, va, pa, perm, level, a);
    LinkStep(s1, pg, level, a, c, w, pa, perm, va);
    MapsLinked(s, s1, Linked(s1, a, Px(level, va), c, w, perm), pg, va / PGSIZE, 0, pa, perm, pa);
  }

  lemma GoingStored(s: Space, s1: Space, pg: nat, va: nat, pa: nat, perm: nat, a: nat)
    requires Perm(perm) && Going(s, s1, pg, va, pa, perm, 0, a) && va < SPACE && pa < PAGES * PGSIZE && Usable(s1.t, a)
    ensures Tree(Stored(s1, a, Px(0, va), Leaf(pa, perm)))
    ensures Maps(s, Stored(s1, a, Px(0, va), Leaf(pa, perm)), pg, va / PGSIZE, 1, pa, perm)
  {
    hide Maps, Going, Tree, Ppn, Px, Passes, Valid, Link, Leaf, TableAt, Walk;
    GoingAt(s, s1, pg, va, pa, perm, 0, a);
    GoingTree(s, s1, pg, va, pa, perm, 0, a);
    StoreStep(s1, pg, a, pa, perm, va);
    MapsTree(s1, Stored(s1, a, Px(0, va), Leaf(pa, perm)), pg, va / PGSIZE, 1, pa, perm);
    assert va / PGSIZE + 0 == va / PGSIZE && pa + 0 * PGSIZE == pa;
    MapsStep(s, s1, Stored(s1, a, Px(0, va), Leaf(pa, perm)), pg, va / PGSIZE, 0, pa, perm);
  }

  lemma GoingTree(s: Space, s1: Space, pg: nat, va: nat, pa: nat, perm: nat, level: int, a: nat)
    requires Perm(perm) && Going(s, s1, pg, va, pa, perm, level, a)
    ensures Tree(s1) && 0 <= level <= 2 && TableAt(s1.t, pg, 2, level, va) == Some(a)
  {
    hide Tree, TableAt;
  }

  lemma MapsTree(s: Space, s': Space, root: nat, lo: nat, n: nat, pa: nat, perm: nat)
    requires Perm(perm) && Maps(s, s', root, lo, n, pa, perm)
    ensures Tree(s')
  {
    hide Tree;
  }
}
