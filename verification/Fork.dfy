/** alloc_process, copy_mem_from, umap (sched.c) and sys_fork (syscall.c). */
module Fork {
  import opened Bytes
  import opened Options
  import opened PageTables
  import opened Mapping
  import opened KernelHalf
  import Blocks
  import opened Memory
  import opened Processes

  const NR_TASK := 64
  const TASK_RUNNING := 0
  const TASK_INITIAL_COUNTER := 256
  const SV39_USER_SP_ADDR := 0x40_0000_0000

  datatype Context = Context(
    ra: nat, sp: nat, gp: nat, tp: nat, t0: nat, t1: nat, t2: nat, s0: nat, s1: nat,
    a0: nat, a1: nat, a2: nat, a3: nat, a4: nat, a5: nat, a6: nat, a7: nat,
    s2: nat, s3: nat, s4: nat, s5: nat, s6: nat, s7: nat, s8: nat, s9: nat, s10: nat, s11: nat,
    t3: nat, t4: nat, t5: nat, t6: nat, sepc: nat)

  datatype Task = Task(filename: string, pid: nat, fpid: nat, state: nat, context: Context, pgtable: nat, memMap: seq<Vma>, counter: nat)

  /** `sys_fork` panics in the other cases. */
  datatype Forked = Child(pid: nat) | NoPid | OutOfMemory

  // ---- The allocator and the copy loop -----------------------------------------------------

  /** Some area of the list finds no free block. */
  ghost predicate Exhausted(b: Blocks.State, ms: seq<Vma>) {
    exists j :: 0 <= j < |ms| && ms[j].range > 0 && NoBlock(b, ms[j].range)
  }

  // kalloc of a whole area: consecutive pages of a free block, contents as they were
  method KallocArea(mem: Memory, size: nat) returns (ok: bool, base: nat)
    requires mem.Ok() && 0 < size <= SPACE
    modifies mem`free, mem`frames, mem`blocks
    ensures mem.Ok() && mem.Draws() && (ok <==> !NoBlock(old(mem.blocks), size))
    ensures !ok ==> mem.frames == old(mem.frames) && mem.free == old(mem.free) && NoBlock(mem.blocks, size)
    ensures ok ==> base + Turns(size) <= PAGES
    ensures ok ==> forall p :: base <= p < base + Turns(size) ==> p in mem.frames && p !in old(mem.frames)
    ensures forall p :: p in old(mem.frames) ==> p in mem.frames && mem.frames[p] == old(mem.frames)[p]
  {
    hide Good, Owned, NoBlock;
    AllPages(mem.Spaces(), mem.frames, mem.free);
    var pages := mem.free;
    var n;
    ok, base, n := mem.Kalloc(size);
    if ok {
      var area := map p: nat | base <= p < base + Turns(size) :: pages[p];
      AreaGood(mem.Spaces(), mem.frames, pages, base, n, Turns(size));
      mem.frames := mem.frames + area;
    }
  }

  lemma AllPages(s: Space, frames: map<nat, seq<byte>>, free: map<nat, seq<byte>>)
    requires Good(s, frames, free)
    ensures frames.Keys !! free.Keys && Pages(frames)
  {
    hide Tree, Zeros;
  }

  /** Free pages become data pages. */
  lemma AreaGood(s: Space, frames: map<nat, seq<byte>>, free: map<nat, seq<byte>>, base: nat, n: nat, k: nat)
    requires Good(s, frames, free) && k <= n && forall p :: base <= p < base + n ==> p in free
    ensures Good(s, frames + map p: nat | base <= p < base + k :: free[p], Outside(free, base, n))
  {
    hide Tree;
  }

  ghost function ViewOf(mem: Memory): View
    reads mem
  {
    View(mem.Spaces(), mem.frames)
  }

  // memcpy(pa, va, size), reading through the current table
  method CopyArea(mem: Memory, base: nat, root: nat, va: nat, size: nat)
    requires mem.Ok() && Root(mem.Spaces(), root)
    requires forall p :: base <= p < base + Turns(size) ==> p in mem.frames
    requires forall u :: va <= u < va + size ==> Reads(ViewOf(mem), root, u, base, Turns(size))
    modifies mem`frames
    ensures mem.Ok() && mem.frames.Keys == old(mem.frames).Keys
    ensures forall p :: p in mem.frames && !(base <= p < base + Turns(size)) ==> mem.frames[p] == old(mem.frames)[p]
    ensures forall u: nat :: va <= u < va + size ==> Phys(mem.frames, base * PGSIZE + (u - va)) == old(Load(ViewOf(mem), root, u)) != None
  {
    hide Walk, Good, Owned, Ppn, Phys, Load;
    ghost var v := ViewOf(mem);
    var i := 0;
    while i < size
      invariant 0 <= i <= size && mem.Ok() && mem.frames.Keys == v.frames.Keys && mem.Spaces() == v.s
      invariant forall p :: p in mem.frames && !(base <= p < base + Turns(size)) ==> mem.frames[p] == v.frames[p]
      invariant Bytewise(v, mem.frames, base, root, va, i)
    {
      assert Reads(v, root, va + i, base, Turns(size));
      ByteRead(mem, v, root, va + i, base, Turns(size), base + i / PGSIZE);
      var e := mem.Trans(root, va + i);
      var x := mem.frames[Ppn(e.value)][(va + i) % PGSIZE];
      ghost var before := mem.frames;
      var p: nat := base + i / PGSIZE;
      ByteGood(mem.Spaces(), mem.frames, mem.free, p, i % PGSIZE, x);
      mem.frames := mem.frames[p := PutByte(mem.frames[p], i % PGSIZE, x)];
      OneMoreByte(v, before, base, root, va, i, x);
      i := i + 1;
    }
  }

  /** A byte read through the table while the target area changes is the byte read before. */
  lemma ByteRead(mem: Memory, v: View, root: nat, u: nat, base: nat, n: nat, p: nat)
    requires mem.Ok() && v.s == mem.Spaces() && Reads(v, root, u, base, n) && p in mem.frames && v.frames.Keys == mem.frames.Keys
    requires forall q :: q in mem.frames && !(base <= q < base + n) ==> mem.frames[q] == v.frames[q]
    ensures Walk(mem.tables, root, 2, u).Some? && Ppn(Walk(mem.tables, root, 2, u).value) in mem.frames && |mem.frames[p]| == PGSIZE
    ensures |mem.frames[Ppn(Walk(mem.tables, root, 2, u).value)]| == PGSIZE
    ensures Load(v, root, u) == Some(mem.frames[Ppn(Walk(mem.tables, root, 2, u).value)][u % PGSIZE])
  {
    hide Walk, Tree, Owned, Ppn;
  }

  /** Storing a byte in a data page keeps everything apart. */
  lemma ByteGood(s: Space, frames: map<nat, seq<byte>>, free: map<nat, seq<byte>>, p: nat, i: nat, x: byte)
    requires Good(s, frames, free) && p in frames && i < PGSIZE
    ensures |frames[p]| == PGSIZE && Good(s, frames[p := PutByte(frames[p], i, x)], free)
  {
    hide Tree, Zeros;
  }

  /** The first `n` bytes of the area are copied. */
  ghost predicate Bytewise(v: View, frames: map<nat, seq<byte>>, base: nat, root: nat, va: nat, n: nat) {
    forall u: nat :: va <= u < va + n ==> Phys(frames, base * PGSIZE + (u - va)) == Load(v, root, u) != None
  }

  lemma OneMoreByte(v: View, frames: map<nat, seq<byte>>, base: nat, root: nat, va: nat, i: nat, x: byte)
    requires base + i / PGSIZE in frames && |frames[base + i / PGSIZE]| == PGSIZE
    requires Bytewise(v, frames, base, root, va, i) && Load(v, root, va + i) == Some(x)
    ensures Bytewise(v, frames[base + i / PGSIZE := PutByte(frames[base + i / PGSIZE], i % PGSIZE, x)], base, root, va, i + 1)
  {
    hide Phys, Load;
    forall u: nat | va <= u < va + i + 1
      ensures Phys(frames[base + i / PGSIZE := PutByte(frames[base + i / PGSIZE], i % PGSIZE, x)], base * PGSIZE + (u - va)) == Load(v, root, u) != None
    {
      ByteAt(frames, base, i, x, u - va);
    }
  }

  /** `u` leads to a data page outside the target area. */
  ghost predicate Reads(v: View, root: nat, u: nat, base: nat, n: nat) {
    && Frame(v, root, u).Some? && Frame(v, root, u).value in v.frames && !(base <= Frame(v, root, u).value < base + n)
  }

  lemma ByteAt(frames: map<nat, seq<byte>>, base: nat, i: nat, x: byte, j: nat)
    requires base + i / PGSIZE in frames && |frames[base + i / PGSIZE]| == PGSIZE
    ensures Phys(frames[base + i / PGSIZE := PutByte(frames[base + i / PGSIZE], i % PGSIZE, x)], base * PGSIZE + j) ==
      if i == j then Some(x) else Phys(frames, base * PGSIZE + j)
  {
    assert (base * PGSIZE + j) / PGSIZE == base + j / PGSIZE && (base * PGSIZE + j) % PGSIZE == j % PGSIZE;
  }

  // ---- One turn of copy_mem_from, on values ------------------------------------------------

  /** `i` areas of process `cur` are copied into the table `child`. */
  ghost predicate Midway(v0: View, v: View, k: nat, ps: map<nat, Proc>, cur: nat, child: nat, i: nat) {
    && System(v0, k, ps) && cur in ps && child !in Roots(ps) && |ps[cur].mem| == MAX_VMA_NUM && i <= MAX_VMA_NUM
    && Kept(v0, v, k, child, Roots(ps) + {child}) && Copied(v0, v, k, child, ps[cur].root, ps[cur].mem, i)
  }

  lemma MidwayStart(v0: View, k: nat, ps: map<nat, Proc>, cur: nat, child: nat)
    requires System(v0, k, ps) && cur in ps && child !in v0.s.t
    ensures k in v0.s.t && Midway(v0, View(RootCopy(v0.s, k, child), v0.frames), k, ps, cur, child, 0)
  {
    hide Walk, Px, Passes, Ppn, Valid, Backed, Apart;
    SameKeys(v0.s);
    BackedSize(v0, k, ps[cur]);
    CopyKeepsHalf(v0.s, k, Roots(ps), child);
    var v := View(RootCopy(v0.s, k, child), v0.frames);
    forall va: nat | va < SPACE && !Uses(v0.s, k, Px(2, va))
      ensures Walk(v.s.t, child, 2, va) == None
    {
      UnusedWalk(v0.s, k, va);
    }
    assert ps[cur].mem[..0] == [];
    assert Copied(v0, v, k, child, ps[cur].root, ps[cur].mem, 0);
  }

  lemma UnusedWalk(s: Space, r: nat, va: nat)
    requires !Uses(s, r, Px(2, va))
    ensures Walk(s.t, r, 2, va) == None
  {
  }

  /** The parent still reads its area, on pages that were in use before the fork. */
  lemma MidwayReads(v0: View, v: View, k: nat, ps: map<nat, Proc>, cur: nat, child: nat, i: nat, u: nat)
    requires Midway(v0, v, k, ps, cur, child, i) && i < MAX_VMA_NUM && Holds(ps[cur].mem[i], u)
    ensures Frame(v, ps[cur].root, u).Some? && Frame(v, ps[cur].root, u).value in v0.frames
    ensures Load(v, ps[cur].root, u) == Load(v0, ps[cur].root, u) != None
  {
    hide Walk, Half, Copied, Apart;
    assert Backed(v0, k, ps[cur]) && Span(ps[cur].mem[i], u) && ps[cur].root in Roots(ps);
    OtherBacked(v0, v, k, child, Roots(ps) + {child}, ps[cur]);
    InAt(ps[cur].mem, i, u);
  }

  lemma MidwayArea(v0: View, v: View, k: nat, ps: map<nat, Proc>, cur: nat, child: nat, i: nat)
    requires Midway(v0, v, k, ps, cur, child, i) && i < MAX_VMA_NUM && ps[cur].mem[i].range > 0
    ensures PlacedArea(v0.s, k, ps[cur].mem[i]) && PlacedArea(v.s, k, ps[cur].mem[i])
    ensures i < |ps[cur].mem| && NewGround(ps[cur].mem, i)
  {
    hide Walk, Half, Copied, Apart, Uses, Px, Frame, InMem;
    assert Backed(v0, k, ps[cur]);
    forall j, va: nat | 0 <= j < i && Span(ps[cur].mem[j], va)
      ensures !Span(ps[cur].mem[i], va) && va < SPACE
    {
      assert PlacedArea(v0.s, k, ps[cur].mem[j]);
    }
  }

  lemma AreaSize(v0: View, v: View, k: nat, ps: map<nat, Proc>, cur: nat, child: nat, i: nat)
    requires Midway(v0, v, k, ps, cur, child, i) && i < MAX_VMA_NUM && ps[cur].mem[i].range > 0
    ensures ps[cur].mem[i].start + ps[cur].mem[i].range <= SPACE
  {
    hide Walk, Uses, Px, Copied, System, Half, UserPages, Apart;
    MidwayArea(v0, v, k, ps, cur, child, i);
  }

  /** The filled pages can be mapped at the area. */
  lemma ReadyToMap(v0: View, v: View, v1: View, k: nat, ps: map<nat, Proc>, cur: nat, child: nat, i: nat, base: nat)
    requires Midway(v0, v, k, ps, cur, child, i) && i < MAX_VMA_NUM && ps[cur].mem[i].range > 0
    requires Filled(v0, v, v1, ps[cur].root, ps[cur].mem[i], base) && base + Turns(ps[cur].mem[i].range) <= PAGES
    ensures v1.s == v.s && Root(v1.s, child) && ps[cur].mem[i].start + ps[cur].mem[i].range <= SPACE
    ensures base * PGSIZE + ps[cur].mem[i].range <= PAGES * PGSIZE
  {
    hide Walk, Uses, Px, Copied, System, Half, UserPages, Apart;
    AreaSize(v0, v, k, ps, cur, child, i);
    HalfRoot(v.s, k, Roots(ps) + {child}, child);
  }

  /** The child has nothing in the area yet, so `map` finds no page mapped twice. */
  lemma MidwayFree(v0: View, v: View, k: nat, ps: map<nat, Proc>, cur: nat, child: nat, i: nat, n: nat)
    requires Midway(v0, v, k, ps, cur, child, i) && i < MAX_VMA_NUM && ps[cur].mem[i].range > 0 && n < Turns(ps[cur].mem[i].range)
    ensures Walk(v.s.t, child, 2, Nth(ps[cur].mem[i].start, n)) == None
  {
    hide Walk, Half, Apart, Uses, Px, Frame, SameByte, FreshPage, System, Kept;
    var ms, va := ps[cur].mem, Nth(ps[cur].mem[i].start, n);
    MidwayArea(v0, v, k, ps, cur, child, i);
    assert va / PGSIZE == ms[i].start / PGSIZE + n && Span(ms[i], va);
  }

  lemma MidwaySkip(v0: View, v: View, k: nat, ps: map<nat, Proc>, cur: nat, child: nat, i: nat)
    requires Midway(v0, v, k, ps, cur, child, i) && i < MAX_VMA_NUM && ps[cur].mem[i].range == 0
    ensures Midway(v0, v, k, ps, cur, child, i + 1)
  {
    hide Walk, System, Kept, Uses, Px, SameByte, FreshPage, InMem;
    assert forall va: nat :: InMem(ps[cur].mem[..i + 1], va) <==> InMem(ps[cur].mem[..i], va) by {
      forall va: nat ensures InMem(ps[cur].mem[..i + 1], va) <==> InMem(ps[cur].mem[..i], va) {
        InOneMore(ps[cur].mem, i, va);
      }
    }
  }

  /** The area is filled and mapped. */
  lemma MidwayStep(v0: View, v: View, v1: View, s2: Space, k: nat, ps: map<nat, Proc>, cur: nat, child: nat, i: nat, base: nat)
    requires Midway(v0, v, k, ps, cur, child, i) && i < MAX_VMA_NUM && ps[cur].mem[i].range > 0
    requires Filled(v0, v, v1, ps[cur].root, ps[cur].mem[i], base) && base + Turns(ps[cur].mem[i].range) <= PAGES
    requires Extends(v1.s, s2, child)
    requires Mapped(v1.s, s2, child, ps[cur].mem[i].start / PGSIZE, Turns(ps[cur].mem[i].range), base * PGSIZE, PTE_U)
    ensures Midway(v0, View(s2, v1.frames), k, ps, cur, child, i + 1)
  {
    hide Walk, Uses, Px, SameByte, FreshPage, InMem, System, Copied, Half, UserPages, Mapped, Extends, Span, Phys, Load, Step, PlacedArea, Turns, NewGround;
    var m := ps[cur].mem[i];
    MidwayArea(v0, v, k, ps, cur, child, i);
    HalfRoot(v.s, k, Roots(ps) + {child}, child);
    assert v1.s == v.s;
    MakeStep(v0, v, v1, s2, k, child, ps[cur].root, ps[cur].mem, i, base);
    UserArea(v.s, k, m);
    CopyStep(v0, v, v1, s2, k, child, ps[cur].root, ps[cur].mem, i, base);
    MapKeepsHalf(v.s, s2, k, Roots(ps) + {child}, child, m.start / PGSIZE, Turns(m.range), base * PGSIZE, PTE_U);
  }

  lemma MakeStep(v0: View, v: View, v1: View, s2: Space, k: nat, child: nat, parent: nat, ms: seq<Vma>, i: nat, base: nat)
    requires i < |ms| && ms[i].range > 0 && PlacedArea(v.s, k, ms[i]) && base + Turns(ms[i].range) <= PAGES
    requires Filled(v0, v, v1, parent, ms[i], base) && Root(v.s, child)
    requires NewGround(ms, i) && forall p :: p in v0.frames ==> p in v.frames
    requires Mapped(v1.s, s2, child, ms[i].start / PGSIZE, Turns(ms[i].range), base * PGSIZE, PTE_U)
    ensures Step(v0, v, v1, s2, k, child, parent, ms, i, base)
  {
    hide Mapped, Span, Phys, Load, UserPages, NewGround;
  }

  lemma UserArea(s: Space, k: nat, m: Vma)
    requires PlacedArea(s, k, m)
    ensures UserPages(s, k, m.start / PGSIZE, Turns(m.range))
  {
    hide UserPages, Turns;
  }

  lemma HalfRoot(s: Space, k: nat, rs: set<nat>, r: nat)
    requires Half(s, k, rs) && r in rs
    ensures Root(s, r)
  {
  }

  /** Fresh pages are at hand and the parent can be read. */
  ghost predicate Fresh(v: View, vk: View, base: nat, n: nat) {
    && vk.s == v.s && base + n <= PAGES
    && (forall p :: base <= p < base + n ==> p in vk.frames && p !in v.frames)
    && (forall p :: p in v.frames ==> p in vk.frames && vk.frames[p] == v.frames[p])
  }

  lemma ReadyToCopy(v0: View, v: View, vk: View, k: nat, ps: map<nat, Proc>, cur: nat, child: nat, i: nat, base: nat)
    requires Midway(v0, v, k, ps, cur, child, i) && i < MAX_VMA_NUM && ps[cur].mem[i].range > 0
    requires Fresh(v, vk, base, Turns(ps[cur].mem[i].range))
    ensures Root(v.s, ps[cur].root) && Root(v.s, child) && ps[cur].mem[i].start + ps[cur].mem[i].range <= SPACE
    ensures forall u: nat :: Holds(ps[cur].mem[i], u) ==>
      && Reads(vk, ps[cur].root, u, base, Turns(ps[cur].mem[i].range))
      && Load(vk, ps[cur].root, u) == Load(v0, ps[cur].root, u) != None
  {
    hide Walk, Uses, Px, Copied, System, Half, UserPages, Ppn, Apart;
    var m := ps[cur].mem[i];
    MidwayArea(v0, v, k, ps, cur, child, i);
    assert ps[cur].root in Roots(ps);
    HalfRoot(v.s, k, Roots(ps) + {child}, ps[cur].root);
    HalfRoot(v.s, k, Roots(ps) + {child}, child);
    forall u: nat | Holds(m, u)
      ensures Reads(vk, ps[cur].root, u, base, Turns(m.range)) && Load(vk, ps[cur].root, u) == Load(v0, ps[cur].root, u) != None
    {
      MidwayReads(v0, v, k, ps, cur, child, i, u);
    }
  }

  lemma NowFilled(v0: View, v: View, vk: View, v1: View, k: nat, ps: map<nat, Proc>, cur: nat, child: nat, i: nat, base: nat)
    requires Midway(v0, v, k, ps, cur, child, i) && i < MAX_VMA_NUM && ps[cur].mem[i].range > 0
    requires Fresh(v, vk, base, Turns(ps[cur].mem[i].range)) && v1.s == vk.s && v1.frames.Keys == vk.frames.Keys && Pages(v1.frames)
    requires forall p :: p in v1.frames && !(base <= p < base + Turns(ps[cur].mem[i].range)) ==> v1.frames[p] == vk.frames[p]
    requires forall u: nat :: Holds(ps[cur].mem[i], u) ==>
      Phys(v1.frames, base * PGSIZE + (u - ps[cur].mem[i].start)) == Load(vk, ps[cur].root, u) != None
    ensures Filled(v0, v, v1, ps[cur].root, ps[cur].mem[i], base)
  {
    hide Midway, Load, Phys;
    ReadyToCopy(v0, v, vk, k, ps, cur, child, i, base);
  }

  // ---- vma_insert --------------------------------------------------------------------------

  /** The first free slot takes the area; a full table drops it. */
  function Entered(ms: seq<Vma>, m: Vma, i: nat): seq<Vma>
    requires i <= |ms|
    decreases |ms| - i
  {
    if i == |ms| then ms else if ms[i].range == 0 then ms[i := m] else Entered(ms, m, i + 1)
  }

  lemma {:induction false} EnteredAt(ms: seq<Vma>, m: Vma, i: nat, n: nat)
    requires i <= n < |ms| && ms[n].range == 0 && forall j :: i <= j < n ==> ms[j].range > 0
    ensures Entered(ms, m, i) == ms[n := m]
    decreases n - i
  {
    if i < n {
      EnteredAt(ms, m, i + 1, n);
    }
  }

  lemma {:induction false} InheritUsed(ms: seq<Vma>, i: nat)
    requires i <= |ms|
    ensures forall a :: 0 <= a < |Inherit(ms, i)| ==> Inherit(ms, i)[a].range > 0
    decreases i
  {
    if i > 0 {
      InheritUsed(ms, i - 1);
    }
  }

  /** Copying the areas one by one never fills the child's table early. */
  lemma InheritedStep(cs: seq<Vma>, ms: seq<Vma>, i: nat)
    requires Inherited(cs, ms, i) && i < |ms| == MAX_VMA_NUM && ms[i].range > 0
    ensures Inherited(Entered(cs, Vma(ms[i].start, ms[i].range, PTE_U), 0), ms, i + 1)
  {
    var n := |Inherit(ms, i)|;
    InheritUsed(ms, i);
    forall j | 0 <= j < n
      ensures cs[j].range > 0
    {
      assert cs[..n][j] == Inherit(ms, i)[j];
    }
    EnteredAt(cs, Vma(ms[i].start, ms[i].range, PTE_U), 0, n);
  }

  // ---- The kernel ----------------------------------------------------------------------

  class Kernel {
    const mem: Memory
    const kpg: nat
    var task: seq<Task>
    var pidmap: seq<nat>
    var current: nat

    constructor (m: Memory, k: nat, ts: seq<Task>, pids: seq<nat>, cur: nat)
      ensures mem == m && kpg == k && task == ts && pidmap == pids && current == cur
    {
      mem, kpg, task, pidmap, current := m, k, ts, pids, cur;
    }

    /** The live processes. */
    ghost function Procs(): map<nat, Proc>
      reads this
      requires |task| == |pidmap|
    {
      map i: nat | i < |pidmap| && pidmap[i] != 0 :: Proc(task[i].pgtable, task[i].memMap)
    }

    ghost predicate Shape()
      reads this
    {
      && |task| == |pidmap| == NR_TASK && current < NR_TASK && pidmap[current] != 0
      && (forall i :: 0 <= i < NR_TASK ==> |task[i].memMap| == MAX_VMA_NUM)
      && forall i :: 0 <= i < NR_TASK ==>
           if pidmap[i] != 0 then task[i].pid == i else forall j :: 0 <= j < MAX_VMA_NUM ==> task[i].memMap[j].range == 0
    }

    ghost predicate Ok()
      reads this, mem
    {
      Shape() && mem.Ok() && System(ViewOf(mem), kpg, Procs())
    }

    // alloc_pid
    method AllocPid() returns (ok: bool, pid: nat)
      requires |pidmap| == NR_TASK
      modifies this`pidmap
      ensures ok ==> pid < NR_TASK && old(pidmap)[pid] == 0 && pidmap == old(pidmap)[pid := 1]
      ensures forall j :: 0 <= j < (if ok then pid else NR_TASK) ==> old(pidmap)[j] != 0
      ensures !ok ==> pidmap == old(pidmap)
    {
      pid := 0;
      while pid < NR_TASK
        invariant pid <= NR_TASK && pidmap == old(pidmap) && forall j :: 0 <= j < pid ==> pidmap[j] != 0
      {
        if pidmap[pid] == 0 {
          pidmap := pidmap[pid := 1];
          return true, pid;
        }
        pid := pid + 1;
      }
      ok := false;
    }

    // vma_insert
    method VmaInsert(p: nat, va: nat, size: nat, flag: nat)
      requires p < |task|
      modifies this`task
      ensures task == old(task)[p := old(task)[p].(memMap := Entered(old(task)[p].memMap, Vma(va, size, flag), 0))]
    {
      var ms := task[p].memMap;
      var i := 0;
      while i < |ms|
        invariant 0 <= i <= |ms| && Entered(ms, Vma(va, size, flag), 0) == Entered(ms, Vma(va, size, flag), i) && task == old(task)
      {
        if ms[i].range == 0 {
          task := task[p := task[p].(memMap := ms[i := Vma(va, size, flag)])];
          return;
        }
        i := i + 1;
      }
    }

    // kalloc and memcpy for one used area
    method FillArea(i: nat, ghost v0: View, ghost ps: map<nat, Proc>, ghost child: nat) returns (ok: bool, base: nat)
      requires Shape() && i < MAX_VMA_NUM && task[current].memMap[i].range > 0 && mem.Ok()
      requires current in ps && ps[current] == Proc(task[current].pgtable, task[current].memMap)
      requires Midway(v0, ViewOf(mem), kpg, ps, current, child, i)
      modifies mem`free, mem`frames, mem`blocks
      ensures mem.Ok() && (!ok ==> NoBlock(mem.blocks, ps[current].mem[i].range))
      ensures ok ==> Filled(v0, old(ViewOf(mem)), ViewOf(mem), ps[current].root, ps[current].mem[i], base)
      ensures ok ==> base + Turns(ps[current].mem[i].range) <= PAGES
    {
      hide Midway, Walk, Good, Owned, Span, Filled, NoBlock;
      ghost var v := ViewOf(mem);
      var m := task[current].memMap[i];
      AreaSize(v0, v, kpg, ps, current, child, i);
      ok, base := KallocArea(mem, m.range);
      if !ok {
        return;
      }
      ghost var vk := ViewOf(mem);
      ReadyToCopy(v0, v, vk, kpg, ps, current, child, i, base);
      CopyArea(mem, base, task[current].pgtable, m.start, m.range);
      AllPages(mem.Spaces(), mem.frames, mem.free);
      NowFilled(v0, v, vk, ViewOf(mem), kpg, ps, current, child, i, base);
    }

    // The body of copy_mem_from for one used area: kalloc, memcpy, umap.
    method CopyOne(p: nat, i: nat, ghost v0: View, ghost ps: map<nat, Proc>) returns (ok: bool)
      requires Shape() && p < NR_TASK && p != current && i < MAX_VMA_NUM && task[current].memMap[i].range > 0 && mem.Ok()
      requires Midway(v0, ViewOf(mem), kpg, ps, current, task[p].pgtable, i)
      requires current in ps && ps[current] == Proc(task[current].pgtable, task[current].memMap)
      requires Inherited(task[p].memMap, ps[current].mem, i)
      modifies this`task, mem
      ensures mem.Ok() && |task| == NR_TASK
      ensures !ok ==> NoBlock(mem.blocks, ps[current].mem[i].range)
      ensures ok ==> Midway(v0, ViewOf(mem), kpg, ps, current, task[p].pgtable, i + 1) && Inherited(task[p].memMap, ps[current].mem, i + 1)
      ensures ok ==> task == old(task)[p := old(task)[p].(memMap := task[p].memMap)]
    {
      hide Midway, Inherited, Walk, Good, Owned, Extends, Mapped, Made, Span, System, InMem, Filled, Entered, NoBlock;
      ghost var v, child := ViewOf(mem), task[p].pgtable;
      var m := task[current].memMap[i];
      var base, out, done;
      ok, base := FillArea(i, v0, ps, child);
      if !ok {
        return;
      }
      ghost var v1 := ViewOf(mem);
      ReadyToMap(v0, v, v1, kpg, ps, current, child, i, base);
      VmaInsert(p, m.start, m.range, PTE_U);
      out, done := mem.Map(task[p].pgtable, m.start, base * PGSIZE, m.range, PTE_U);
      ok := out.Done?;
      if ok {
        MidwayStep(v0, v, v1, mem.Spaces(), kpg, ps, current, child, i, base);
        InheritedStep(old(task)[p].memMap, ps[current].mem, i);
      } else {
        MidwayFree(v0, v, kpg, ps, current, child, i, done);
        NoPageNoBlock(mem.blocks, mem.first, mem.free, m.range);
      }
    }

    // copy_mem_from.  `v0` and `ps` are the memory and the processes before the child was made.
    method CopyMemFrom(p: nat, ghost v0: View, ghost ps: map<nat, Proc>) returns (ok: bool)
      requires Shape() && p < NR_TASK && p != current && pidmap[p] != 0 && mem.Ok()
      requires Midway(v0, ViewOf(mem), kpg, ps, current, task[p].pgtable, 0)
      requires current in ps && ps[current] == Proc(task[current].pgtable, task[current].memMap)
      requires Inherited(task[p].memMap, ps[current].mem, 0)
      modifies this`task, mem
      ensures mem.Ok() && |task| == NR_TASK
      ensures !ok ==> Exhausted(mem.blocks, ps[current].mem)
      ensures ok ==> Midway(v0, ViewOf(mem), kpg, ps, current, task[p].pgtable, MAX_VMA_NUM)
      ensures ok ==> Inherited(task[p].memMap, ps[current].mem, MAX_VMA_NUM)
      ensures ok ==> task == old(task)[p := old(task)[p].(memMap := task[p].memMap)]
    {
      hide Midway, Inherited, Memory.Ok, NoBlock;
      var i := 0;
      while i < MAX_VMA_NUM
        invariant 0 <= i <= MAX_VMA_NUM && |task| == NR_TASK && mem.Ok()
        invariant Midway(v0, ViewOf(mem), kpg, ps, current, task[p].pgtable, i) && Inherited(task[p].memMap, ps[current].mem, i)
        invariant task == old(task)[p := old(task)[p].(memMap := task[p].memMap)]
      {
        InheritedSize(task[p].memMap, ps[current].mem, i);
        if task[current].memMap[i].range != 0 {
          ok := CopyOne(p, i, v0, ps);
          if !ok {
            return;
          }
        } else {
          MidwaySkip(v0, ViewOf(mem), kpg, ps, current, task[p].pgtable, i);
          InheritedSkip(task[p].memMap, ps[current].mem, i);
        }
        i := i + 1;
      }
      ok := true;
    }

    // alloc_pgtable: a copy of the kernel's root
    method AllocPgtable() returns (ok: bool, t: nat)
      requires mem.Ok() && Root(mem.Spaces(), kpg)
      modifies mem`tables, mem`free, mem`tier, mem`blocks
      ensures mem.Ok() && (ok <==> old(mem.free) != map[])
      ensures !ok ==> mem.Spaces() == old(mem.Spaces()) && mem.free == map[]
      ensures ok ==> t !in old(mem.tables) && mem.Spaces() == RootCopy(old(mem.Spaces()), kpg, t)
    {
      hide Tree, Good, Owned, RootCopy;
      ghost var s := mem.Spaces();
      ok, t := mem.KallocPage();
      if ok {
        RootTaken(s, mem.frames, old(mem.free), kpg, t);
        mem.tables := mem.tables[t := mem.tables[kpg]];
        mem.tier := mem.tier[t := 2];
      }
    }

    // alloc_process
    method AllocProcess() returns (out: Forked)
      requires Shape() && mem.Ok() && Root(mem.Spaces(), kpg)
      modifies this`task, this`pidmap, mem`tables, mem`free, mem`tier, mem`blocks
      ensures mem.Ok() && mem.frames == old(mem.frames)
      ensures out.NoPid? <==> forall j :: 0 <= j < NR_TASK ==> old(pidmap)[j] != 0
      ensures out.OutOfMemory? ==> mem.free == map[]
      ensures out.Child? ==> var r := out.pid;
        && r < NR_TASK && old(pidmap)[r] == 0 && pidmap == old(pidmap)[r := 1] && |task| == NR_TASK
        && task[r].pgtable !in old(mem.tables) && mem.Spaces() == RootCopy(old(mem.Spaces()), kpg, task[r].pgtable)
        && task == old(task)[r := Task(old(task)[r].filename, r, old(task)[r].fpid, TASK_RUNNING,
             old(task)[r].context.(sp := SV39_USER_SP_ADDR), task[r].pgtable, old(task)[r].memMap, TASK_INITIAL_COUNTER)]
    {
      hide Tree, Memory.Ok;
      var ok, pid := AllocPid();
      if !ok {
        return NoPid;
      }
      var got, t := AllocPgtable();
      if !got {
        return OutOfMemory;
      }
      var c := task[pid].context;
      task := task[pid := Task(task[pid].filename, pid, task[pid].fpid, TASK_RUNNING, c.(sp := SV39_USER_SP_ADDR), t, task[pid].memMap, TASK_INITIAL_COUNTER)];
      out := Child(pid);
    }

    /** The child of a fork, seen by its parent: `t` is the parent before the call. */
    ghost predicate IsChild(pid: nat, t: Task)
      reads this
      requires pid < |task|
    {
      && task[pid].filename == t.filename && task[pid].fpid == t.pid && task[pid].pid == pid && task[pid].state == TASK_RUNNING
      && task[pid].counter == TASK_INITIAL_COUNTER && task[pid].context == t.context.(a0 := 0)
      && Inherited(task[pid].memMap, t.memMap, MAX_VMA_NUM)
    }

    // sys_fork on the two task structures
    method CopyTask(p: nat)
      requires p < |task| && current < |task| && p != current
      modifies this`task
      ensures task == old(task)
        [p := old(task)[p].(filename := old(task)[current].filename, fpid := old(task)[current].pid, state := TASK_RUNNING,
           context := old(task)[current].context.(a0 := 0))]
        [current := old(task)[current].(context := old(task)[current].context.(a0 := old(task)[p].pid))]
    {
      var parent := task[current];
      task := task[p := task[p].(filename := parent.filename, fpid := parent.pid, state := TASK_RUNNING, context := parent.context)];
      task := task[p := task[p].(context := task[p].context.(a0 := 0))];
      task := task[current := task[current].(context := task[current].context.(a0 := task[p].pid))];
    }

    // sys_fork
    method SysFork() returns (out: Forked)
      requires Ok()
      modifies this`task, this`pidmap, mem
      ensures out.NoPid? <==> forall j :: 0 <= j < NR_TASK ==> old(pidmap)[j] != 0
      ensures out.OutOfMemory? ==> mem.free == map[] || Exhausted(mem.blocks, old(task[current].memMap))
      ensures out.Child? ==> Ok() && out.pid < NR_TASK && old(pidmap)[out.pid] == 0 && pidmap == old(pidmap)[out.pid := 1]
      ensures out.Child? ==> IsChild(out.pid, old(task[current]))
      ensures out.Child? ==> task == old(task)[out.pid := task[out.pid]][current := old(task[current]).(context := old(task[current]).context.(a0 := out.pid))]
      ensures out.Child? ==> EqualMemory(old(ViewOf(mem)), ViewOf(mem), task[current].memMap, task[current].pgtable, task[out.pid].pgtable)
      ensures out.Child? ==> ReadAsBefore(old(ViewOf(mem)), ViewOf(mem), old(Procs()))
    {
      hide Midway, Inherited, Memory.Ok, System, Exhausted, EqualMemory, ReadAsBefore;
      ghost var v0, ps := ViewOf(mem), Procs();
      KernelRoot(v0, kpg, ps);
      out := AllocProcess();
      if !out.Child? {
        return;
      }
      var p := out.pid;
      MidwayStart(v0, kpg, ps, current, task[p].pgtable);
      CopyTask(p);
      NothingInherited(task[p].memMap, ps[current].mem);
      var ok := CopyMemFrom(p, v0, ps);
      if !ok {
        return OutOfMemory;
      }
      InheritedSize(task[p].memMap, ps[current].mem, MAX_VMA_NUM);
      assert Procs() == ps[p := Proc(task[p].pgtable, task[p].memMap)];
      MidwayEnd(v0, ViewOf(mem), kpg, ps, current, p, Proc(task[p].pgtable, task[p].memMap));
    }
  }

  /** Every byte of every area reads the same through the two tables, as it did before. */
  ghost predicate EqualMemory(v0: View, v: View, ms: seq<Vma>, parent: nat, child: nat) {
    forall j, va: nat :: 0 <= j < |ms| && Holds(ms[j], va) ==> Load(v, child, va) == Load(v, parent, va) == Load(v0, parent, va) != None
  }

  lemma RootTaken(s: Space, frames: map<nat, seq<byte>>, free: map<nat, seq<byte>>, k: nat, r: nat)
    requires Good(s, frames, free) && Root(s, k) && r in free
    ensures k in s.t && r !in s.t && RootCopy(s, k, r) == Space(s.t[r := s.t[k]], s.tier[r := 2])
    ensures Good(RootCopy(s, k, r), frames, free - {r})
  {
    hide Tree, Zeros;
    SameKeys(s);
    CopyTree(s, k, r);
    PageTaken(s, RootCopy(s, k, r), frames, free, r);
  }

  /** Every process reads its own memory as it did. */
  ghost predicate ReadAsBefore(v0: View, v: View, ps: map<nat, Proc>) {
    forall i, va: nat :: i in ps && InMem(ps[i].mem, va) ==> Load(v, ps[i].root, va) == Load(v0, ps[i].root, va)
  }

  lemma KernelRoot(v: View, k: nat, ps: map<nat, Proc>)
    requires System(v, k, ps)
    ensures Root(v.s, k)
  {
  }

  lemma NothingInherited(cs: seq<Vma>, ms: seq<Vma>)
    requires |cs| == MAX_VMA_NUM && forall j :: 0 <= j < MAX_VMA_NUM ==> cs[j].range == 0
    ensures Inherited(cs, ms, 0)
  {
  }

  lemma MidwayEnd(v0: View, v: View, k: nat, ps: map<nat, Proc>, cur: nat, c: nat, p: Proc)
    requires Midway(v0, v, k, ps, cur, p.root, MAX_VMA_NUM) && c !in ps && Inherited(p.mem, ps[cur].mem, MAX_VMA_NUM)
    ensures System(v, k, ps[c := p]) && EqualMemory(v0, v, ps[cur].mem, ps[cur].root, p.root) && ReadAsBefore(v0, v, ps)
  {
    hide System, Kept, Copied, Inherited, Load, Holds, InMem;
    ForkPrivate(v0, v, k, ps, cur, c, p);
    forall i, va: nat | i in ps && InMem(ps[i].mem, va)
      ensures Load(v, ps[i].root, va) == Load(v0, ps[i].root, va)
    {
      SystemBacked(v0, k, ps, i);
      OtherBacked(v0, v, k, p.root, Roots(ps) + {p.root}, ps[i]);
    }
  }

  lemma SystemBacked(v: View, k: nat, ps: map<nat, Proc>, i: nat)
    requires System(v, k, ps) && i in ps
    ensures Backed(v, k, ps[i]) && ps[i].root in Roots(ps)
  {
    hide Backed, Apart, Half;
  }

  lemma InheritedSize(cs: seq<Vma>, ms: seq<Vma>, i: nat)
    requires Inherited(cs, ms, i)
    ensures |cs| == MAX_VMA_NUM
  {
  }

  lemma InheritedSkip(cs: seq<Vma>, ms: seq<Vma>, i: nat)
    requires Inherited(cs, ms, i) && i < |ms| && ms[i].range == 0
    ensures Inherited(cs, ms, i + 1)
  {
  }
}
