/** Process memory: areas, reads and writes through a table, and what a private copy is (sched.c). */
module Processes {
  import opened Bytes
  import opened Options
  import opened PageTables
  import opened Mapping
  import opened KernelHalf
  import opened Memory

  const MAX_VMA_NUM := 5

  datatype Vma = Vma(start: nat, range: nat, flags: nat)

  /** The whole pages of an area. */
  predicate Span(m: Vma, va: nat) {
    m.range > 0 && m.start <= va < m.start + Turns(m.range) * PGSIZE
  }

  /** The bytes of an area. */
  predicate Holds(m: Vma, va: nat) {
    m.start <= va < m.start + m.range
  }

  ghost predicate InMem(ms: seq<Vma>, va: nat) {
    exists j :: 0 <= j < |ms| && Span(ms[j], va)
  }

  /** The tables and the data pages. */
  datatype View = View(s: Space, frames: map<nat, seq<byte>>)

  /** The page `va` leads to through table `root`. */
  function Frame(v: View, root: nat, va: nat): Option<nat> {
    match Walk(v.s.t, root, 2, va)
    case None => None
    case Some(e) => Some(Ppn(e))
  }

  /** A load through table `root`; None where it faults. */
  function Load(v: View, root: nat, va: nat): Option<byte> {
    match Frame(v, root, va)
    case None => None
    case Some(p) => if p in v.frames && |v.frames[p]| == PGSIZE then Some(v.frames[p][va % PGSIZE]) else None
  }

  /** A store through table `root`. */
  function Store(v: View, root: nat, va: nat, x: byte): View {
    match Frame(v, root, va)
    case None => v
    case Some(p) =>
      if p in v.frames && |v.frames[p]| == PGSIZE then v.(frames := v.frames[p := PutByte(v.frames[p], va % PGSIZE, x)]) else v
  }

  function PutByte(b: seq<byte>, i: nat, x: byte): seq<byte>
    requires i < |b|
  {
    seq(|b|, j requires 0 <= j < |b| => if j == i then x else b[j])
  }

  /** A process: its root table and its areas. */
  datatype Proc = Proc(root: nat, mem: seq<Vma>)

  /** The areas lie in user pages, apart from each other, and lead to data pages. */
  ghost predicate Backed(v: View, k: nat, p: Proc) {
    && |p.mem| == MAX_VMA_NUM
    && (forall j :: 0 <= j < MAX_VMA_NUM && p.mem[j].range > 0 ==> PlacedArea(v.s, k, p.mem[j]))
    && (forall i, j, va: nat :: 0 <= i < j < MAX_VMA_NUM && Span(p.mem[i], va) ==> !Span(p.mem[j], va))
    && (forall va: nat :: InMem(p.mem, va) ==> Frame(v, p.root, va).Some? && Frame(v, p.root, va).value in v.frames)
  }

  ghost predicate PlacedArea(s: Space, k: nat, m: Vma) {
    m.start % PGSIZE == 0 && m.start + m.range <= SPACE && UserPages(s, k, m.start / PGSIZE, Turns(m.range))
  }

  function Roots(ps: map<nat, Proc>): set<nat> {
    set i | i in ps :: ps[i].root
  }

  ghost predicate Apart(v: View, p: Proc, q: Proc) {
    forall va: nat, vb: nat :: InMem(p.mem, va) && InMem(q.mem, vb) ==> Frame(v, p.root, va) != Frame(v, q.root, vb)
  }

  ghost predicate Pages(frames: map<nat, seq<byte>>) {
    forall p :: p in frames ==> |frames[p]| == PGSIZE
  }

  /** Every process has its own memory and the kernel's half. */
  ghost predicate System(v: View, k: nat, ps: map<nat, Proc>) {
    && Pages(v.frames) && Half(v.s, k, Roots(ps))
    && (forall i, j :: i in ps && j in ps && i != j ==> ps[i].root != ps[j].root && Apart(v, ps[i], ps[j]))
    && (forall i :: i in ps ==> Backed(v, k, ps[i]))
  }

  // ---- Writes stay private -----------------------------------------------------------------

  /** The system after one process writes one byte of its own memory; the others read as before,
      and the writer reads the byte back. */
  lemma WritePrivate(v: View, k: nat, ps: map<nat, Proc>, i: nat, va: nat, x: byte)
    requires System(v, k, ps) && i in ps && InMem(ps[i].mem, va)
    ensures System(Store(v, ps[i].root, va, x), k, ps)
    ensures Load(Store(v, ps[i].root, va, x), ps[i].root, va) == Some(x)
    ensures forall j, vb: nat :: j in ps && j != i && InMem(ps[j].mem, vb) ==> Load(Store(v, ps[i].root, va, x), ps[j].root, vb) == Load(v, ps[j].root, vb)
  {
    hide Walk, Half, InMem, PlacedArea, Ppn;
    var w := Store(v, ps[i].root, va, x);
    assert forall r, u: nat :: Frame(w, r, u) == Frame(v, r, u);
    forall j | j in ps
      ensures Backed(w, k, ps[j])
    {
      assert Backed(v, k, ps[j]);
    }
    assert Backed(v, k, ps[i]);
    forall j, l | j in ps && l in ps && j != l
      ensures Apart(w, ps[j], ps[l])
    {
      assert Apart(v, ps[j], ps[l]);
    }
    forall j, vb: nat | j in ps && j != i && InMem(ps[j].mem, vb)
      ensures Load(w, ps[j].root, vb) == Load(v, ps[j].root, vb)
    {
      assert Apart(v, ps[i], ps[j]) && Frame(v, ps[i].root, va) != Frame(v, ps[j].root, vb);
    }
  }

  /** A write of process `who`. */
  datatype Write = Write(who: nat, va: nat, x: byte)

  ghost predicate OwnWrites(ps: map<nat, Proc>, ws: seq<Write>) {
    forall n :: 0 <= n < |ws| ==> ws[n].who in ps && InMem(ps[ws[n].who].mem, ws[n].va)
  }

  function Wrote(v: View, ps: map<nat, Proc>, ws: seq<Write>): View {
    if ws == [] then v
    else
      var w := ws[|ws| - 1];
      var u := Wrote(v, ps, ws[..|ws| - 1]);
      if w.who in ps then Store(u, ps[w.who].root, w.va, w.x) else u
  }

  /** However the processes write their own memory, a process that does not write reads its own
      memory unchanged. */
  lemma {:induction false} WritesPrivate(v: View, k: nat, ps: map<nat, Proc>, ws: seq<Write>, j: nat, vb: nat)
    requires System(v, k, ps) && OwnWrites(ps, ws) && j in ps && InMem(ps[j].mem, vb)
    requires forall n :: 0 <= n < |ws| ==> ws[n].who != j
    ensures System(Wrote(v, ps, ws), k, ps) && Load(Wrote(v, ps, ws), ps[j].root, vb) == Load(v, ps[j].root, vb)
    decreases |ws|
  {
    hide System, Store, Load, InMem;
    if ws != [] {
      var n := |ws| - 1;
      WritesPrivate(v, k, ps, ws[..n], j, vb);
      assert ws[n].who in ps;
      WritePrivate(Wrote(v, ps, ws[..n]), k, ps, ws[n].who, ws[n].va, ws[n].x);
    }
  }

  // ---- One area copied ---------------------------------------------------------------------

  /** Byte `a` of physical memory. */
  function Phys(frames: map<nat, seq<byte>>, a: nat): Option<byte> {
    var p := a / PGSIZE;
    if p in frames && |frames[p]| == PGSIZE then Some(frames[p][a % PGSIZE]) else None
  }

  /** The first `i` areas of the parent are mapped in `child`, on pages that were not in use before,
      with the parent's bytes, and nothing else is mapped there. */
  ghost predicate Copied(v0: View, v: View, k: nat, child: nat, parent: nat, ms: seq<Vma>, i: nat)
    requires i <= |ms|
  {
    && (forall j, va: nat :: 0 <= j < i && Holds(ms[j], va) ==> SameByte(v0, v, child, parent, va))
    && (forall va: nat :: InMem(ms[..i], va) ==> FreshPage(v0, v, child, va))
    && (forall va: nat :: va < SPACE && !Uses(v0.s, k, Px(2, va)) && !InMem(ms[..i], va) ==> Walk(v.s.t, child, 2, va) == None)
  }

  ghost predicate SameByte(v0: View, v: View, child: nat, parent: nat, va: nat) {
    Load(v, child, va) == Load(v0, parent, va) != None
  }

  ghost predicate FreshPage(v0: View, v: View, child: nat, va: nat) {
    Frame(v, child, va).Some? && Frame(v, child, va).value in v.frames && Frame(v, child, va).value !in v0.frames
  }

  /** What the copying keeps: the data pages in use, the kernel's half, every other table. */
  ghost predicate Kept(v0: View, v: View, k: nat, child: nat, rs: set<nat>) {
    && Pages(v.frames) && Half(v.s, k, rs) && child in rs
    && (forall p :: p in v0.frames ==> p in v.frames && v.frames[p] == v0.frames[p])
    && (forall i: nat :: Uses(v.s, k, i) <==> Uses(v0.s, k, i))
    && (forall q, va: nat :: q in rs + {k} && q != child && va < SPACE ==> Walk(v.s.t, q, 2, va) == Walk(v0.s.t, q, 2, va))
  }

  /** Fresh pages from `base` on hold the bytes the parent reads in the area. */
  ghost predicate Filled(v0: View, v: View, v1: View, parent: nat, m: Vma, base: nat) {
    && v1.s == v.s && Pages(v1.frames)
    && (forall p :: p in v.frames ==> p in v1.frames && v1.frames[p] == v.frames[p])
    && (forall p :: base <= p < base + Turns(m.range) ==> p in v1.frames && p !in v.frames && p < PAGES)
    && (forall va: nat :: Holds(m, va) ==> Phys(v1.frames, base * PGSIZE + (va - m.start)) == Load(v0, parent, va) != None)
  }

  lemma PageOf(base: nat, start: nat, va: nat)
    requires start % PGSIZE == 0 && start <= va
    ensures (base * PGSIZE + (va / PGSIZE - start / PGSIZE) * PGSIZE) / PGSIZE == base + (va - start) / PGSIZE
    ensures (base * PGSIZE + (va - start)) / PGSIZE == base + (va - start) / PGSIZE
    ensures (base * PGSIZE + (va - start)) % PGSIZE == va % PGSIZE
  {
  }

  /** Mapping the filled pages at the area: where each address of the child leads. */
  lemma AreaMapped(v1: View, s2: Space, k: nat, child: nat, m: Vma, base: nat, va: nat)
    requires Root(v1.s, child) && PlacedArea(v1.s, k, m) && base + Turns(m.range) <= PAGES && va < SPACE
    requires Mapped(v1.s, s2, child, m.start / PGSIZE, Turns(m.range), base * PGSIZE, PTE_U)
    ensures Span(m, va) ==> Frame(View(s2, v1.frames), child, va) == Some(base + (va - m.start) / PGSIZE)
    ensures !Span(m, va) ==> Walk(s2.t, child, 2, va) == Walk(v1.s.t, child, 2, va)
  {
    hide Walk, Leaf, Ppn, UserPages;
    var lo := m.start / PGSIZE;
    assert Walk(s2.t, child, 2, va) == After(v1.s, child, lo, Turns(m.range), base * PGSIZE, PTE_U, child, va);
    if Span(m, va) {
      PageOf(base, m.start, va);
      LeafFields(base * PGSIZE + (va / PGSIZE - lo) * PGSIZE, PTE_U);
    }
  }

  lemma InOneMore(ms: seq<Vma>, i: nat, va: nat)
    requires i < |ms|
    ensures InMem(ms[..i + 1], va) <==> InMem(ms[..i], va) || Span(ms[i], va)
  {
    hide Span;
    if InMem(ms[..i + 1], va) {
      var j :| 0 <= j < |ms[..i + 1]| && Span(ms[..i + 1][j], va);
      assert j < i ==> Span(ms[..i][j], va);
    }
    if InMem(ms[..i], va) {
      var j :| 0 <= j < |ms[..i]| && Span(ms[..i][j], va);
      assert Span(ms[..i + 1][j], va);
    }
    if Span(ms[i], va) {
      assert Span(ms[..i + 1][i], va);
    }
  }

  /** No earlier area meets area `i`. */
  ghost predicate NewGround(ms: seq<Vma>, i: nat)
    requires i < |ms|
  {
    forall j, va: nat :: 0 <= j < i && Span(ms[j], va) ==> !Span(ms[i], va) && va < SPACE
  }

  /** The setting of one step: area `i` is filled at `base` and about to be mapped. */
  ghost predicate Step(v0: View, v: View, v1: View, s2: Space, k: nat, child: nat, parent: nat, ms: seq<Vma>, i: nat, base: nat) {
    && i < |ms| && ms[i].range > 0 && PlacedArea(v1.s, k, ms[i]) && base + Turns(ms[i].range) <= PAGES
    && Filled(v0, v, v1, parent, ms[i], base) && Root(v1.s, child)
    && NewGround(ms, i) && (forall p :: p in v0.frames ==> p in v.frames)
    && Mapped(v1.s, s2, child, ms[i].start / PGSIZE, Turns(ms[i].range), base * PGSIZE, PTE_U)
  }

  lemma StepArea(v0: View, v: View, v1: View, s2: Space, k: nat, child: nat, parent: nat, ms: seq<Vma>, i: nat, base: nat, va: nat)
    requires Step(v0, v, v1, s2, k, child, parent, ms, i, base) && va < SPACE
    ensures Span(ms[i], va) ==> Frame(View(s2, v1.frames), child, va) == Some(base + (va - ms[i].start) / PGSIZE)
    ensures !Span(ms[i], va) ==> Walk(s2.t, child, 2, va) == Walk(v.s.t, child, 2, va)
    ensures !Span(ms[i], va) ==> Frame(View(s2, v1.frames), child, va) == Frame(v, child, va)
  {
    hide Walk, Mapped, PlacedArea, Span, Root, Leaf, Ppn;
    AreaMapped(v1, s2, k, child, ms[i], base, va);
  }

  lemma StepByte(v0: View, v: View, v1: View, s2: Space, k: nat, child: nat, parent: nat, ms: seq<Vma>, i: nat, base: nat, j: nat, va: nat)
    requires Step(v0, v, v1, s2, k, child, parent, ms, i, base) && j <= i && Holds(ms[j], va)
    requires j < i ==> SameByte(v0, v, child, parent, va)
    ensures SameByte(v0, View(s2, v1.frames), child, parent, va)
  {
    hide Walk, Mapped, Root, Frame, UserPages;
    assert Span(ms[j], va);
    assert j < i ==> !Span(ms[i], va);
    StepArea(v0, v, v1, s2, k, child, parent, ms, i, base, va);
    if j == i {
      PageOf(base, ms[i].start, va);
      assert Phys(v1.frames, base * PGSIZE + (va - ms[i].start)) == Load(v0, parent, va);
    }
  }

  lemma StepPage(v0: View, v: View, v1: View, s2: Space, k: nat, child: nat, parent: nat, ms: seq<Vma>, i: nat, base: nat, va: nat)
    requires Step(v0, v, v1, s2, k, child, parent, ms, i, base) && InMem(ms[..i + 1], va)
    requires InMem(ms[..i], va) ==> FreshPage(v0, v, child, va)
    ensures FreshPage(v0, View(s2, v1.frames), child, va)
  {
    hide Walk, Mapped, Root, Frame, UserPages;
    InOneMore(ms, i, va);
    if Span(ms[i], va) {
      StepArea(v0, v, v1, s2, k, child, parent, ms, i, base, va);
      assert (va - ms[i].start) / PGSIZE < Turns(ms[i].range);
    } else {
      var j :| 0 <= j < |ms[..i]| && Span(ms[..i][j], va);
      assert Span(ms[j], va);
      StepArea(v0, v, v1, s2, k, child, parent, ms, i, base, va);
    }
  }

  /** Copying the next area completes one more. */
  lemma CopyStep(v0: View, v: View, v1: View, s2: Space, k: nat, child: nat, parent: nat, ms: seq<Vma>, i: nat, base: nat)
    requires Step(v0, v, v1, s2, k, child, parent, ms, i, base) && Copied(v0, v, k, child, parent, ms, i)
    ensures Copied(v0, View(s2, v1.frames), k, child, parent, ms, i + 1)
  {
    hide Walk, Uses, Px, Step, Span, InMem, FreshPage, SameByte;
    assert i < |ms| by { StepBounds(v0, v, v1, s2, k, child, parent, ms, i, base); }
    var v2 := View(s2, v1.frames);
    forall j, va: nat | 0 <= j < i + 1 && Holds(ms[j], va)
      ensures SameByte(v0, v2, child, parent, va)
    {
      StepByte(v0, v, v1, s2, k, child, parent, ms, i, base, j, va);
    }
    forall va: nat | InMem(ms[..i + 1], va)
      ensures FreshPage(v0, v2, child, va)
    {
      StepPage(v0, v, v1, s2, k, child, parent, ms, i, base, va);
    }
    forall va: nat | va < SPACE && !Uses(v0.s, k, Px(2, va)) && !InMem(ms[..i + 1], va)
      ensures Walk(v2.s.t, child, 2, va) == None
    {
      InOneMore(ms, i, va);
      StepArea(v0, v, v1, s2, k, child, parent, ms, i, base, va);
    }
  }

  lemma StepBounds(v0: View, v: View, v1: View, s2: Space, k: nat, child: nat, parent: nat, ms: seq<Vma>, i: nat, base: nat)
    requires Step(v0, v, v1, s2, k, child, parent, ms, i, base)
    ensures i < |ms|
  {
  }

  // ---- The areas of the child --------------------------------------------------------------

  /** The used areas among the first `i`, as umap enters them. */
  function Inherit(ms: seq<Vma>, i: nat): (r: seq<Vma>)
    requires i <= |ms|
    ensures |r| <= i
  {
    if i == 0 then [] else Inherit(ms, i - 1) + if ms[i - 1].range == 0 then [] else [Vma(ms[i - 1].start, ms[i - 1].range, PTE_U)]
  }

  /** `cs` holds them and is empty after them. */
  ghost predicate Inherited(cs: seq<Vma>, ms: seq<Vma>, i: nat) {
    && i <= |ms| && |cs| == MAX_VMA_NUM && |Inherit(ms, i)| <= MAX_VMA_NUM
    && cs[..|Inherit(ms, i)|] == Inherit(ms, i) && forall j :: |Inherit(ms, i)| <= j < MAX_VMA_NUM ==> cs[j].range == 0
  }

  lemma {:induction false} InheritIn(ms: seq<Vma>, i: nat, va: nat)
    requires i <= |ms|
    ensures InMem(Inherit(ms, i), va) <==> InMem(ms[..i], va)
    decreases i
  {
    hide InMem;
    if i == 0 {
      assert Inherit(ms, i) == ms[..i];
    } else {
      InheritIn(ms, i - 1, va);
      InOneMore(ms, i - 1, va);
      var l := Inherit(ms, i);
      var n := |Inherit(ms, i - 1)|;
      assert l[..n] == Inherit(ms, i - 1);
      if ms[i - 1].range > 0 {
        InOneMore(l, n, va);
        assert l[..n + 1] == l;
      } else {
        assert l == l[..n];
      }
    }
  }

  /** Used areas of the list are areas of the parent, and those of different places are apart. */
  lemma {:induction false} InheritAreas(s: Space, k: nat, ms: seq<Vma>, i: nat)
    requires i <= |ms|
    requires forall x :: 0 <= x < i && ms[x].range > 0 ==> PlacedArea(s, k, ms[x])
    requires forall x, y, va: nat :: 0 <= x < y < i && Span(ms[x], va) ==> !Span(ms[y], va)
    ensures forall a :: 0 <= a < |Inherit(ms, i)| ==> PlacedArea(s, k, Inherit(ms, i)[a])
    ensures forall a, b, va: nat :: 0 <= a < b < |Inherit(ms, i)| && Span(Inherit(ms, i)[a], va) ==> !Span(Inherit(ms, i)[b], va)
    decreases i
  {
    hide InMem, UserPages;
    if i > 0 {
      InheritAreas(s, k, ms, i - 1);
      var l, n := Inherit(ms, i), |Inherit(ms, i - 1)|;
      forall a, b, va: nat | 0 <= a < b < |l| && Span(l[a], va)
        ensures !Span(l[b], va)
      {
        if b == n {
          assert InMem(Inherit(ms, i - 1), va) by { InAt(Inherit(ms, i - 1), a, va); }
          InheritIn(ms, i - 1, va);
          var x := PlaceOf(ms[..i - 1], va);
          assert Span(ms[x], va) && !Span(ms[i - 1], va);
        }
      }
    }
  }

  lemma InAt(ms: seq<Vma>, a: nat, va: nat)
    requires a < |ms| && Span(ms[a], va)
    ensures InMem(ms, va)
  {
  }

  ghost function PlaceOf(ms: seq<Vma>, va: nat): (j: nat)
    requires InMem(ms, va)
    ensures j < |ms| && Span(ms[j], va)
  {
    var j :| 0 <= j < |ms| && Span(ms[j], va);
    j
  }

  lemma InheritedMem(cs: seq<Vma>, ms: seq<Vma>, i: nat, va: nat)
    requires Inherited(cs, ms, i)
    ensures InMem(cs, va) <==> InMem(ms[..i], va)
  {
    InheritIn(ms, i, va);
    var l := Inherit(ms, i);
    if InMem(cs, va) {
      var j := PlaceOf(cs, va);
      assert cs[j] == l[j];
    }
    if InMem(l, va) {
      var j := PlaceOf(l, va);
      assert cs[j] == l[j];
    }
  }

  // ---- Fork --------------------------------------------------------------------------------

  /** The child backs its areas with pages of its own. */
  lemma ChildBacked(v0: View, v: View, k: nat, ps: map<nat, Proc>, i: nat, p: Proc)
    requires System(v0, k, ps) && i in ps && Copied(v0, v, k, p.root, ps[i].root, ps[i].mem, MAX_VMA_NUM)
    requires Inherited(p.mem, ps[i].mem, MAX_VMA_NUM) && forall i: nat :: Uses(v.s, k, i) <==> Uses(v0.s, k, i)
    ensures Backed(v, k, p)
  {
    hide Half, Walk, Uses, Px, Apart, InMem, Span, SameByte;
    var ms, l := ps[i].mem, Inherit(ps[i].mem, MAX_VMA_NUM);
    assert Backed(v0, k, ps[i]);
    InheritAreas(v0.s, k, ms, MAX_VMA_NUM);
    assert ms[..MAX_VMA_NUM] == ms;
    forall va: nat | InMem(p.mem, va)
      ensures Frame(v, p.root, va).Some? && Frame(v, p.root, va).value in v.frames
    {
      InheritedMem(p.mem, ms, MAX_VMA_NUM, va);
      assert FreshPage(v0, v, p.root, va);
    }
    forall j | 0 <= j < MAX_VMA_NUM && p.mem[j].range > 0
      ensures j < |l| && p.mem[j] == l[j] && PlacedArea(v.s, k, p.mem[j])
    {
      assert p.mem[..|l|][j] == l[j];
      assert PlacedArea(v0.s, k, l[j]);
    }
    forall a, b, va: nat | 0 <= a < b < MAX_VMA_NUM && Span(p.mem[a], va)
      ensures !Span(p.mem[b], va)
    {
      SpanUsed(p.mem[a], va);
      SpanUsed(p.mem[b], va);
    }
  }

  lemma SpanUsed(m: Vma, va: nat)
    ensures Span(m, va) ==> m.range > 0
  {
  }

  /** Other processes keep their backing while the child is made. */
  lemma OtherBacked(v0: View, v: View, k: nat, child: nat, rs: set<nat>, q: Proc)
    requires Kept(v0, v, k, child, rs) && Backed(v0, k, q) && q.root in rs && q.root != child
    ensures Backed(v, k, q)
    ensures forall va: nat :: InMem(q.mem, va) ==> va < SPACE && Frame(v, q.root, va) == Frame(v0, q.root, va) && Load(v, q.root, va) == Load(v0, q.root, va)
  {
    hide Half, Walk, Uses, Px, Ppn;
    forall va: nat | InMem(q.mem, va)
      ensures va < SPACE && Frame(v, q.root, va) == Frame(v0, q.root, va) && Load(v, q.root, va) == Load(v0, q.root, va)
    {
      var j := PlaceOf(q.mem, va);
      assert PlacedArea(v0.s, k, q.mem[j]);
      assert Walk(v.s.t, q.root, 2, va) == Walk(v0.s.t, q.root, 2, va);
    }
    forall j | 0 <= j < MAX_VMA_NUM && q.mem[j].range > 0
      ensures PlacedArea(v.s, k, q.mem[j])
    {
      assert PlacedArea(v0.s, k, q.mem[j]);
    }
  }

  /** A fork gives the child an equal copy that no other process can reach. */
  lemma ForkPrivate(v0: View, v: View, k: nat, ps: map<nat, Proc>, i: nat, c: nat, p: Proc)
    requires System(v0, k, ps) && i in ps && c !in ps && p.root !in Roots(ps)
    requires Kept(v0, v, k, p.root, Roots(ps) + {p.root}) && Copied(v0, v, k, p.root, ps[i].root, ps[i].mem, MAX_VMA_NUM)
    requires Inherited(p.mem, ps[i].mem, MAX_VMA_NUM)
    ensures System(v, k, ps[c := p])
    ensures forall j, va: nat :: 0 <= j < MAX_VMA_NUM && Holds(ps[i].mem[j], va) ==>
      Load(v, p.root, va) == Load(v, ps[i].root, va) == Load(v0, ps[i].root, va) != None
  {
    hide Half, Walk, Uses, Px, Backed, Copied, Inherited, InMem, Load, Frame, Apart, Span;
    var qs := ps[c := p];
    forall j | j in ps
      ensures Backed(v, k, ps[j]) && ps[j].root in Roots(ps)
    {
      OtherBacked(v0, v, k, p.root, Roots(ps) + {p.root}, ps[j]);
    }
    ChildBacked(v0, v, k, ps, i, p);
    assert Roots(qs) == Roots(ps) + {p.root} by { NewRoot(ps, c, p); }
    forall a, b | a in qs && b in qs && a != b
      ensures qs[a].root != qs[b].root && Apart(v, qs[a], qs[b])
    {
      if a in ps && b in ps && a != c && b != c {
        assert Apart(v0, ps[a], ps[b]);
        StillApart(v0, v, k, p.root, Roots(ps) + {p.root}, ps[a], ps[b]);
      } else if a == c {
        ChildApart(v0, v, k, ps, i, p, ps[b]);
      } else {
        ChildApart(v0, v, k, ps, i, p, ps[a]);
      }
    }
    BackedSize(v0, k, ps[i]);
    forall j, va: nat | 0 <= j < MAX_VMA_NUM && Holds(ps[i].mem[j], va)
      ensures Load(v, p.root, va) == Load(v, ps[i].root, va) == Load(v0, ps[i].root, va) != None
    {
      CopiedByte(v0, v, k, p.root, ps[i], j, va);
      OtherBacked(v0, v, k, p.root, Roots(ps) + {p.root}, ps[i]);
    }
  }

  lemma BackedSize(v: View, k: nat, p: Proc)
    requires Backed(v, k, p)
    ensures |p.mem| == MAX_VMA_NUM
  {
  }

  lemma NewRoot(ps: map<nat, Proc>, c: nat, p: Proc)
    requires c !in ps
    ensures Roots(ps[c := p]) == Roots(ps) + {p.root}
  {
    var qs := ps[c := p];
    forall r | r in Roots(ps) + {p.root}
      ensures r in Roots(qs)
    {
      if r != p.root {
        var i :| i in ps && ps[i].root == r;
        assert i in qs && qs[i].root == r;
      } else {
        assert c in qs && qs[c].root == r;
      }
    }
  }

  lemma CopiedByte(v0: View, v: View, k: nat, child: nat, q: Proc, j: nat, va: nat)
    requires Backed(v0, k, q) && Copied(v0, v, k, child, q.root, q.mem, MAX_VMA_NUM) && j < MAX_VMA_NUM && Holds(q.mem[j], va)
    ensures InMem(q.mem, va) && Load(v, child, va) == Load(v0, q.root, va) != None
  {
    hide Load, Frame, Walk;
    assert SameByte(v0, v, child, q.root, va);
    assert Span(q.mem[j], va);
  }

  lemma StillApart(v0: View, v: View, k: nat, child: nat, rs: set<nat>, p: Proc, q: Proc)
    requires Kept(v0, v, k, child, rs) && Backed(v0, k, p) && Backed(v0, k, q) && Apart(v0, p, q)
    requires p.root in rs && q.root in rs && p.root != child && q.root != child
    ensures Apart(v, p, q)
  {
    hide Kept, Backed, Frame, Load, InMem;
    OtherBacked(v0, v, k, child, rs, p);
    OtherBacked(v0, v, k, child, rs, q);
  }

  lemma ChildApart(v0: View, v: View, k: nat, ps: map<nat, Proc>, i: nat, p: Proc, q: Proc)
    requires Kept(v0, v, k, p.root, Roots(ps) + {p.root}) && Backed(v0, k, q) && q.root in Roots(ps) && p.root !in Roots(ps)
    requires i in ps && Backed(v0, k, ps[i]) && Copied(v0, v, k, p.root, ps[i].root, ps[i].mem, MAX_VMA_NUM) && Inherited(p.mem, ps[i].mem, MAX_VMA_NUM)
    ensures Apart(v, p, q) && Apart(v, q, p)
  {
    hide Kept, Load, InMem, Inherited, Uses, Px, Span, PlacedArea, SameByte;
    OtherBacked(v0, v, k, p.root, Roots(ps) + {p.root}, q);
    var ms := ps[i].mem;
    assert ms[..MAX_VMA_NUM] == ms;
    forall va: nat | InMem(p.mem, va)
      ensures FreshPage(v0, v, p.root, va)
    {
      InheritedMem(p.mem, ms, MAX_VMA_NUM, va);
    }
  }
}
