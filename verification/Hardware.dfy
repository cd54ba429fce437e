/** The tables of `map` as the processor reads them: the address translation of section 4.3.2 of the
    RISC-V Privileged Architecture (20211203), for Sv39, beside the walk of `trans`. */
module Hardware {
  import opened Options
  import opened PageTables
  import opened Mapping
  import opened KernelHalf

  const PTE_A := 64
  const PTE_D := 128
  const LOW_HALF := 0x40_0000_0000     // 2^38

  predicate Accessed(p: nat) {
    p / PTE_A % 2 == 1
  }

  predicate Dirty(p: nat) {
    p / PTE_D % 2 == 1
  }

  /** D, A and U are reserved in an entry that points to a table (section 4.3.1). */
  predicate Reserved(p: nat) {
    User(p) || Accessed(p) || Dirty(p)
  }

  /** The 44-bit page number; the bits from 54 on are reserved or extensions the kernel does not use. */
  function HardPpn(p: nat): nat {
    p / 0x400 % 0x1000_0000_0000
  }

  predicate HighBits(p: nat) {
    p / 0x40_0000_0000_0000 != 0
  }

  /** Pages under one leaf entry at `level`. */
  function Pages(level: nat): (n: nat)
    ensures n > 0
  {
    if level == 0 then 1 else ENTRIES * Pages(level - 1)
  }

  /** Steps 2 to 6 and 8: the physical address, or None for a page fault.  Permissions and the
      accessed and dirty bits of leaves are not looked at. */
  function Fetch(t: Tables, a: nat, level: nat, va: nat): Option<nat>
    requires level <= 2
    decreases level
  {
    if !Usable(t, a) then None
    else
      var p := t[a][Px(level, va)];
      if !Passes(p) || HighBits(p) then None
      else if Readable(p) || Executable(p) then
        if HardPpn(p) % Pages(level) != 0 then None else Some(HardPpn(p) * PGSIZE + va % (Pages(level) * PGSIZE))
      else if Reserved(p) || level == 0 then None
      else Fetch(t, HardPpn(p), level - 1, va)
  }

  /** Bits 63 to 39 of an address repeat bit 38. */
  predicate Canonical(va: nat) {
    va < LOW_HALF || 0x1_0000_0000_0000_0000 - LOW_HALF <= va
  }

  function Translate(t: Tables, root: nat, va: nat): Option<nat> {
    if Canonical(va) then Fetch(t, root, 2, va) else None
  }

  /** What `trans` computes. */
  function Traced(t: Tables, root: nat, va: nat): Option<nat> {
    match Walk(t, root, 2, va)
    case None => None
    case Some(p) => Some(Physical(p, va))
  }

  // ---- Where the two agree -----------------------------------------------------------------

  /** Entries as `map` makes them: pointers above, readable leaves at the bottom. */
  predicate Form(e: nat, level: nat) {
    e / 0x400 < PAGES && if level > 0 then !Readable(e) && !Executable(e) else Readable(e)
  }

  ghost predicate Plain(s: Space) {
    forall a, i: nat :: Uses(s, a, i) ==> a in s.tier && Form(s.t[a][i], s.tier[a])
  }

  /** A pointer entry on the path of `va` has a reserved bit set. */
  predicate Barred(t: Tables, a: nat, level: nat, va: nat)
    requires level <= 2
    decreases level
  {
    level > 0 && Usable(t, a) && (Reserved(t[a][Px(level, va)]) || Barred(t, Ppn(t[a][Px(level, va)]), level - 1, va))
  }

  lemma PlainEntry(e: nat)
    requires e / 0x400 < PAGES
    ensures HardPpn(e) == Ppn(e) && !HighBits(e)
  {
  }

  lemma {:induction false} FetchWalk(s: Space, b: nat, va: nat)
    requires Tree(s) && Plain(s) && b in s.tier
    ensures s.tier[b] <= 2
    ensures Fetch(s.t, b, s.tier[b], va) ==
      if Barred(s.t, b, s.tier[b], va) then None
      else match Walk(s.t, b, s.tier[b], va) case None => None case Some(p) => Some(Physical(p, va))
    decreases s.tier[b]
  {
    hide Px, Ppn, HardPpn, HighBits, Readable, Writable, Executable, Reserved;
    var i := Px(s.tier[b], va);
    var e := s.t[b][i];
    if Valid(e) {
      assert Uses(s, b, i);
      PlainEntry(e);
      if s.tier[b] > 0 {
        FetchWalk(s, Child(s, b, i), va);
      }
    }
  }

  /** The processor finds what `trans` finds if and only if `trans` finds nothing, or the address is
      canonical and neither pointer entry on its path has a reserved bit. */
  lemma Agree(s: Space, r: nat, va: nat)
    requires Tree(s) && Plain(s) && Root(s, r)
    ensures Translate(s.t, r, va) == Traced(s.t, r, va) <==>
      Walk(s.t, r, 2, va) == None || (Canonical(va) && !Barred(s.t, r, 2, va))
  {
    hide Walk, Fetch, Barred, Canonical;
    FetchWalk(s, r, va);
  }

  // ---- What `map` builds -------------------------------------------------------------------

  lemma FlagA(q: nat, f: nat)
    ensures Accessed(q * 0x400 + f) == Accessed(f)
  {
    assert (q * 0x400 + f) / PTE_A == 2 * (q * 8) + f / PTE_A;
  }

  lemma FlagD(q: nat, f: nat)
    ensures Dirty(q * 0x400 + f) == Dirty(f)
  {
    assert (q * 0x400 + f) / PTE_D == 2 * (q * 4) + f / PTE_D;
  }

  lemma LowReserved(perm: nat)
    requires perm % 16 == 0
    ensures Reserved(PTE_V + perm) <==> Reserved(perm)
  {
    var q := perm / 16;
    assert perm == 16 * q;
    assert (PTE_V + perm) / PTE_A == perm / PTE_A == q / 4 && (PTE_V + perm) / PTE_D == perm / PTE_D == q / 8;
    assert (PTE_V + perm) / PTE_U == perm / PTE_U == q;
  }

  /** A pointer entry has a reserved bit exactly when `perm` does. */
  lemma LinkReserved(page: nat, perm: nat)
    requires page < PAGES && Perm(perm)
    ensures Reserved(Link(page, perm)) <==> Reserved(perm)
  {
    hide Pte, User, Accessed, Dirty;
    assert page * PGSIZE / PGSIZE == page;
    PteParts(page * PGSIZE, PTE_V + perm);
    FlagU(page, PTE_V + perm);
    FlagA(page, PTE_V + perm);
    FlagD(page, PTE_V + perm);
    LowReserved(perm);
  }

  lemma BuiltForm(e: nat, level: nat, perm: nat)
    requires Perm(perm) && Built(e, level, perm)
    ensures Form(e, level) && (level > 0 ==> (Reserved(e) <==> Reserved(perm)))
  {
    hide Pte, Readable, Writable, Executable, Valid, User, Reserved;
    var q := Ppn(e);
    assert q * PGSIZE / PGSIZE == q;
    if level > 0 {
      LinkFields(q, perm);
      LinkReserved(q, perm);
      PteParts(q * PGSIZE, PTE_V + perm);
      assert (q * 0x400 + (PTE_V + perm)) / 0x400 == q;
    } else {
      LeafFields(q * PGSIZE, perm);
      PteParts(q * PGSIZE, PTE_X + PTE_W + PTE_R + PTE_V + perm);
      assert (q * 0x400 + (PTE_X + PTE_W + PTE_R + PTE_V + perm)) / 0x400 == q;
    }
  }

  /** `map` keeps the form of the tables, and so does the copy of a root. */
  lemma MadePlain(s: Space, s': Space, root: nat, perm: nat)
    requires Plain(s) && Extends(s, s', root) && Perm(perm) && Made(s, s', perm)
    ensures Plain(s')
  {
    hide Tree, Form, Built, Ppn, Passes, Valid;
    forall a, i: nat | Uses(s', a, i)
      ensures a in s'.tier && Form(s'.t[a][i], s'.tier[a])
    {
      if !Uses(s, a, i) || s'.t[a][i] != s.t[a][i] {
        BuiltForm(s'.t[a][i], s'.tier[a], perm);
      }
    }
  }

  lemma CopyPlain(s: Space, k: nat, r: nat)
    requires Plain(s) && Root(s, k) && k in s.t && r !in s.t
    ensures Plain(RootCopy(s, k, r))
  {
    hide Form, Valid;
    var s' := RootCopy(s, k, r);
    forall a, i: nat | Uses(s', a, i)
      ensures a in s'.tier && Form(s'.t[a][i], s'.tier[a])
    {
      assert if a == r then Uses(s, k, i) else Uses(s, a, i);
    }
  }

  /** Under a root entry that `map` made, every pointer entry on a path is its own: the path is barred
      if and only if `perm` has one of the bits U, A and D. */
  lemma FreshPath(s: Space, s': Space, root: nat, perm: nat, va: nat)
    requires Extends(s, s', root) && Perm(perm) && Made(s, s', perm)
    requires !Uses(s, root, Px(2, va)) && Walk(s'.t, root, 2, va).Some?
    ensures Barred(s'.t, root, 2, va) <==> Reserved(perm)
  {
    hide Px, Ppn, Readable, Writable, Valid, Reserved, Built;
    ValidPasses();
    var i, j := Px(2, va), Px(1, va);
    assert Uses(s', root, i);
    BuiltForm(s'.t[root][i], 2, perm);
    var m := Child(s', root, i);
    assert m !in s.t && s'.tier[m] == 1;
    assert Walk(s'.t, root, 2, va) == Walk(s'.t, m, 1, va);
    assert Uses(s', m, j) && !Uses(s, m, j);
    BuiltForm(s'.t[m][j], 1, perm);
  }

  /** On pages that `map` maps under an unused root entry the processor agrees with `trans` if and only
      if the address is canonical and `perm` has none of the bits U, A and D. */
  lemma MapSeen(s: Space, s': Space, root: nat, lo: nat, n: nat, pa: nat, perm: nat, va: nat)
    requires Plain(s) && Perm(perm) && Maps(s, s', root, lo, n, pa, perm)
    requires va < SPACE && lo <= va / PGSIZE < lo + n && !Uses(s, root, Px(2, va))
    ensures Traced(s'.t, root, va).Some?
    ensures Translate(s'.t, root, va) == Traced(s'.t, root, va) <==> Canonical(va) && !Reserved(perm)
  {
    hide Walk, Fetch, Barred, Canonical, Plain, Tree, Made, Px, Ppn, Leaf, Reserved, Translate, Shares;
    MadePlain(s, s', root, perm);
    assert Root(s', root);
    assert Walk(s'.t, root, 2, va) == After(s, root, lo, n, pa, perm, root, va);
    SharesItself(s, root, va);
    FreshPath(s, s', root, perm, va);
    Agree(s', root, va);
  }

  lemma SharesItself(s: Space, root: nat, va: nat)
    ensures Shares(s, root, root, va)
  {
  }

  // ---- What `umap` builds ------------------------------------------------------------------

  /** One page mapped at address 0 with PTE_U in a new table: tables 1, 2 and 3, page 5. */
  function Row(p: nat): (w: seq<nat>)
    ensures |w| == ENTRIES
  {
    [p] + seq(ENTRIES - 1, _ => 0)
  }

  const Blanks: seq<nat> := Row(0)
  const Start := Space(map[1 := Blanks], map[1 := 2])
  const Upper := Linked(Start, 1, 0, 2, Blanks, PTE_U)
  const Lower := Linked(Upper, 2, 0, 3, Blanks, PTE_U)
  const OnePage := Stored(Lower, 3, 0, Leaf(5 * PGSIZE, PTE_U))

  /** `trans` finds the page; the processor faults. */
  lemma OnePageUnseen()
    ensures Traced(OnePage.t, 1, 0) == Some(5 * PGSIZE) && Translate(OnePage.t, 1, 0) == None
  {
    hide Link, Leaf, Ppn, Passes, Reserved, HardPpn, HighBits, Readable, Executable;
    LinkFields(2, PTE_U);
    LinkFields(3, PTE_U);
    LeafFields(5 * PGSIZE, PTE_U);
    LinkReserved(2, PTE_U);
    assert Reserved(PTE_U) by { UserReserved(); }
    assert OnePage.t[1][Px(2, 0)] == Link(2, PTE_U);
    assert OnePage.t[2][Px(1, 0)] == Link(3, PTE_U);
    assert OnePage.t[3][Px(0, 0)] == Leaf(5 * PGSIZE, PTE_U);
    assert Walk(OnePage.t, 3, 0, 0) == Some(Leaf(5 * PGSIZE, PTE_U));
    assert Walk(OnePage.t, 2, 1, 0) == Walk(OnePage.t, 3, 0, 0);
    assert Walk(OnePage.t, 1, 2, 0) == Walk(OnePage.t, 2, 1, 0);
  }

  lemma UserReserved()
    ensures Reserved(PTE_U)
  {
  }

  /** Every entry a process has beyond the kernel's has a reserved bit. */
  ghost predicate Closed(k: nat, x: Tabs) {
    forall r, i: nat :: r in x.ps && Uses(x.s, r, i) && !Uses(x.s, k, i) ==> Reserved(x.s.t[r][i])
  }

  /** A creation or a umap, with the entries `map` makes. */
  ghost predicate Stepped(k: nat, x: Tabs, y: Tabs, root: nat) {
    Creates(k, x, y, root) || exists lo, n, pa :: Umaps(k, x, y, root, lo, n, pa) && Made(x.s, y.s, PTE_U)
  }

  ghost predicate Steps(k: nat, xs: seq<Tabs>, who: seq<nat>) {
    |xs| == |who| + 1 && forall i :: 0 <= i < |who| ==> Stepped(k, xs[i], xs[i + 1], who[i])
  }

  lemma StepClosed(k: nat, x: Tabs, y: Tabs, root: nat)
    requires Half(x.s, k, x.ps) && Plain(x.s) && Closed(k, x) && Stepped(k, x, y, root)
    ensures Half(y.s, k, y.ps) && Plain(y.s) && Closed(k, y)
  {
    hide Tree, Mapped, UserPages, Reserved, Px, Valid, Plain, Built;
    StepKeeps(k, x, y, root);
    if Creates(k, x, y, root) {
      CopyPlain(x.s, k, root);
      forall r, i: nat | r in y.ps && Uses(y.s, r, i) && !Uses(y.s, k, i)
        ensures Reserved(y.s.t[r][i])
      {
        assert r != root && Uses(x.s, r, i);
      }
    } else {
      var lo, n, pa :| Umaps(k, x, y, root, lo, n, pa) && Made(x.s, y.s, PTE_U);
      MadePlain(x.s, y.s, root, PTE_U);
      forall r, i: nat | r in y.ps && Uses(y.s, r, i) && !Uses(y.s, k, i)
        ensures Reserved(y.s.t[r][i])
      {
        if !Uses(x.s, r, i) {
          UserReserved();
          BuiltForm(y.s.t[r][i], 2, PTE_U);
        }
      }
    }
  }

  /** Over every run of creations and umaps no page outside the kernel's half of any process is seen
      by a processor that checks the reserved bits, and kernel addresses are seen in every process
      as in the kernel's table. */
  lemma {:induction false} RunUnseen(k: nat, xs: seq<Tabs>, who: seq<nat>)
    requires Steps(k, xs, who) && Half(xs[0].s, k, xs[0].ps) && Plain(xs[0].s) && Closed(k, xs[0])
    ensures var z := xs[|who|];
      && Half(z.s, k, z.ps) && Plain(z.s) && Closed(k, z)
      && (forall r, va: nat :: r in z.ps && !Uses(z.s, k, Px(2, va)) ==> Translate(z.s.t, r, va) == None)
      && (forall r, va: nat :: r in z.ps && Uses(z.s, k, Px(2, va)) ==> Translate(z.s.t, r, va) == Translate(z.s.t, k, va))
    decreases |who|
  {
    hide Half, Plain, Closed, Stepped, Translate, Uses, Px;
    var n := |who|;
    if n > 0 {
      var ys := xs[..n];
      assert ys[0] == xs[0] && ys[n - 1] == xs[n - 1];
      RunUnseen(k, ys, who[..n - 1]);
      StepClosed(k, xs[n - 1], xs[n], who[n - 1]);
    }
    var z := xs[n];
    forall r, va: nat | r in z.ps
      ensures !Uses(z.s, k, Px(2, va)) ==> Translate(z.s.t, r, va) == None
      ensures Uses(z.s, k, Px(2, va)) ==> Translate(z.s.t, r, va) == Translate(z.s.t, k, va)
    {
      ClosedAt(k, z, r, va);
    }
  }

  lemma ClosedAt(k: nat, z: Tabs, r: nat, va: nat)
    requires Half(z.s, k, z.ps) && Plain(z.s) && Closed(k, z) && r in z.ps
    ensures !Uses(z.s, k, Px(2, va)) ==> Translate(z.s.t, r, va) == None
    ensures Uses(z.s, k, Px(2, va)) ==> Translate(z.s.t, r, va) == Translate(z.s.t, k, va)
  {
    hide Px, Readable, Writable, Executable, Reserved, HighBits, HardPpn;
    var i := Px(2, va);
    if Uses(z.s, r, i) {
      assert Form(z.s.t[r][i], 2);
    }
  }
}
