/** Sv39 page tables: the macros of vms.h, the walk of `trans` and the shape of the table trees. */
module PageTables {
  import opened Options

  const PGSIZE := 0x1000
  const ENTRIES := 512
  const PAGES := 0x100_0000_0000     // pages a 40-bit ppn names: physical addresses below 2^52
  const SPACE := 0x80_0000_0000      // 2^39 bytes of virtual addresses

  const PTE_V := 1
  const PTE_R := 2
  const PTE_W := 4
  const PTE_X := 8
  const PTE_U := 16

  type Tables = map<nat, seq<nat>>

  // valid, readable, writable
  predicate Valid(p: nat) {
    p % 2 == 1
  }

  predicate Readable(p: nat) {
    p / PTE_R % 2 == 1
  }

  predicate Writable(p: nat) {
    p / PTE_W % 2 == 1
  }

  predicate Executable(p: nat) {
    p / PTE_X % 2 == 1
  }

  predicate User(p: nat) {
    p / PTE_U % 2 == 1
  }

  /** The entry does not make `trans` panic. */
  predicate Passes(p: nat) {
    Valid(p) && !(!Readable(p) && Writable(p))
  }

  // pte2ppn
  function Ppn(p: nat): (r: nat)
    ensures r < PAGES
  {
    p / 0x400 % PAGES
  }

  // PX
  function Px(level: nat, va: nat): (r: nat)
    requires level <= 2
    ensures r < ENTRIES
  {
    if level == 0 then va / PGSIZE % ENTRIES
    else if level == 1 then va / 0x20_0000 % ENTRIES
    else va / 0x4000_0000 % ENTRIES
  }

  /** `perm` holds flags above X only, as the callers' 0 and PTE_U do. */
  predicate Perm(perm: nat) {
    perm < 0x400 && perm % 16 == 0
  }

  /** The entry `map` stores for a physical address, with the 64-bit shifts of the source. */
  function Pte(pa: nat, flags: nat): (p: nat)
    requires flags < 0x400
  {
    pa / PGSIZE * 0x400 % 0x1_0000_0000_0000_0000 + flags
  }

  function Link(page: nat, perm: nat): (p: nat)
    requires Perm(perm)
  {
    Pte(page * PGSIZE, PTE_V + perm)
  }

  function Leaf(pa: nat, perm: nat): (p: nat)
    requires Perm(perm)
  {
    Pte(pa, PTE_X + PTE_W + PTE_R + PTE_V + perm)
  }

  /** Entries and indices in figures: a table at page 2 and a leaf at 0x5000, both with U. */
  lemma EntryWords()
    ensures Link(2, PTE_U) == 0x811 && Leaf(0x5000, PTE_U) == 0x141F && Ppn(0x141F) == 5
    ensures Px(0, 0x1_2345_6789) == 0x56 && Px(1, 0x1_2345_6789) == 0x11A && Px(2, 0x1_2345_6789) == 4
  {
  }

  /** An entry keeps the page number of its 64-bit address exactly below 2^52. */
  lemma PpnOfPte(pa: nat, flags: nat)
    requires pa < 0x1_0000_0000_0000_0000 && flags < 0x400
    ensures Ppn(Pte(pa, flags)) == pa / PGSIZE % PAGES
    ensures Ppn(Pte(pa, flags)) == pa / PGSIZE <==> pa < PAGES * PGSIZE
  {
    assert pa / PGSIZE * 0x400 < 0x1_0000_0000_0000_0000;
    assert Pte(pa, flags) / 0x400 == pa / PGSIZE;
  }

  /** Below 2^52 nothing is shifted out and the flags are the low bits. */
  lemma PteParts(pa: nat, flags: nat)
    requires pa < PAGES * PGSIZE && flags < 0x400
    ensures Pte(pa, flags) == pa / PGSIZE * 0x400 + flags && Ppn(Pte(pa, flags)) == pa / PGSIZE
  {
    hide Ppn;
    PpnOfPte(pa, flags);
    assert pa / PGSIZE * 0x400 < 0x1_0000_0000_0000_0000;
  }

  lemma FlagBits(q: nat, flags: nat)
    requires flags < 0x400
    ensures var p := q * 0x400 + flags;
      && Valid(p) == Valid(flags) && Readable(p) == Readable(flags) && Writable(p) == Writable(flags)
      && Executable(p) == Executable(flags) && User(p) == User(flags)
  {
    hide Valid, Readable, Writable, Executable, User;
    FlagV(q, flags);
    FlagR(q, flags);
    FlagW(q, flags);
    FlagX(q, flags);
    FlagU(q, flags);
  }

  lemma FlagV(q: nat, f: nat)
    ensures Valid(q * 0x400 + f) == Valid(f)
  {
    assert q * 0x400 + f == 2 * (q * 0x200) + f;
  }

  lemma FlagR(q: nat, f: nat)
    ensures Readable(q * 0x400 + f) == Readable(f)
  {
    assert (q * 0x400 + f) / 2 == 2 * (q * 0x100) + f / 2;
  }

  lemma FlagW(q: nat, f: nat)
    ensures Writable(q * 0x400 + f) == Writable(f)
  {
    assert (q * 0x400 + f) / 4 == 2 * (q * 0x80) + f / 4;
  }

  lemma FlagX(q: nat, f: nat)
    ensures Executable(q * 0x400 + f) == Executable(f)
  {
    assert (q * 0x400 + f) / 8 == 2 * (q * 0x40) + f / 8;
  }

  lemma FlagU(q: nat, f: nat)
    ensures User(q * 0x400 + f) == User(f)
  {
    assert (q * 0x400 + f) / 16 == 2 * (q * 0x20) + f / 16;
  }

  lemma LinkFields(page: nat, perm: nat)
    requires page < PAGES && Perm(perm)
    ensures Passes(Link(page, perm)) && Ppn(Link(page, perm)) == page
    ensures !Readable(Link(page, perm)) && !Executable(Link(page, perm))
  {
    hide Ppn, Pte, Valid, Readable, Writable, Executable, User;
    assert page * PGSIZE / PGSIZE == page;
    PteParts(page * PGSIZE, PTE_V + perm);
    FlagBits(page, PTE_V + perm);
    LowFlags(perm);
  }

  /** A leaf is valid, readable, writable and executable, and names the address's page. */
  lemma LeafFields(pa: nat, perm: nat)
    requires pa < PAGES * PGSIZE && Perm(perm)
    ensures var p := Leaf(pa, perm);
      Passes(p) && Readable(p) && Writable(p) && Executable(p) && User(p) == User(perm) && Ppn(p) == pa / PGSIZE
  {
    hide Ppn, Pte, Valid, Readable, Writable, Executable, User;
    PteParts(pa, PTE_X + PTE_W + PTE_R + PTE_V + perm);
    FlagBits(pa / PGSIZE, PTE_X + PTE_W + PTE_R + PTE_V + perm);
    LowFlags(perm);
  }

  /** Flags above X leave the four lowest alone. */
  lemma LowFlags(perm: nat)
    requires perm % 16 == 0
    ensures var p := PTE_X + PTE_W + PTE_R + PTE_V + perm; Valid(p) && Readable(p) && Writable(p) && Executable(p) && User(p) == User(perm)
    ensures var p := PTE_V + perm; Valid(p) && !Readable(p) && !Writable(p) && !Executable(p) && User(p) == User(perm)
  {
    LowBits(perm / 16, 15);
    LowBits(perm / 16, 1);
  }

  /** Halving `16 * q + r` takes halves of both. */
  lemma LowBits(q: nat, r: nat)
    requires r < 16
    ensures var p := r + 16 * q; p / 2 == 8 * q + r / 2 && p / 4 == 4 * q + r / 4 && p / 8 == 2 * q + r / 8 && p / 16 == q
    ensures 16 * q / 16 == q
  {
  }

  lemma Indices(va: nat)
    requires va < SPACE
    ensures va / PGSIZE == Px(2, va) * 0x4_0000 + Px(1, va) * ENTRIES + Px(0, va)
  {
    var n := va / PGSIZE;
    assert va / 0x20_0000 == n / ENTRIES && va / 0x4000_0000 == n / ENTRIES / ENTRIES;
    assert n / ENTRIES / ENTRIES < ENTRIES;
  }

  /** The three indices name the page. */
  lemma SamePage(va: nat, vb: nat)
    requires va < SPACE && vb < SPACE
    ensures va / PGSIZE == vb / PGSIZE <==> Px(0, va) == Px(0, vb) && Px(1, va) == Px(1, vb) && Px(2, va) == Px(2, vb)
  {
    if va / PGSIZE == vb / PGSIZE {
      SamePx(va, vb);
    } else {
      hide Px;
      Indices(va);
      Indices(vb);
    }
  }

  lemma SamePx(va: nat, vb: nat)
    requires va / PGSIZE == vb / PGSIZE
    ensures Px(0, va) == Px(0, vb) && Px(1, va) == Px(1, vb) && Px(2, va) == Px(2, vb)
  {
    assert va / 0x20_0000 == va / PGSIZE / ENTRIES && vb / 0x20_0000 == vb / PGSIZE / ENTRIES;
    assert va / 0x4000_0000 == va / PGSIZE / 0x4_0000 && vb / 0x4000_0000 == vb / PGSIZE / 0x4_0000;
  }

  // ---- The walk ----------------------------------------------------------------------------

  predicate Usable(t: Tables, a: nat) {
    a in t && |t[a]| == ENTRIES
  }

  /** The entry at which `trans` stops for `va`, from table `a` at `level`; None where it panics. */
  function Walk(t: Tables, a: nat, level: nat, va: nat): Option<nat>
    requires level <= 2
    decreases level
  {
    if !Usable(t, a) then None
    else
      var p := t[a][Px(level, va)];
      if !Passes(p) then None
      else if level == 0 then Some(p)
      else Walk(t, Ppn(p), level - 1, va)
  }

  /** The table the walk reads at level `to`. */
  function TableAt(t: Tables, a: nat, level: nat, to: nat, va: nat): Option<nat>
    requires to <= level <= 2
    decreases level
  {
    if !Usable(t, a) then None
    else if level == to then Some(a)
    else
      var p := t[a][Px(level, va)];
      if Passes(p) then TableAt(t, Ppn(p), level - 1, to, va) else None
  }

  /** The physical address `trans` computes. */
  function Physical(p: nat, va: nat): nat {
    Ppn(p) * PGSIZE + va % PGSIZE
  }

  // ---- The shape of the trees --------------------------------------------------------------

  /** The table pages, each with the level it serves: roots at 2, leaf tables at 0. */
  datatype Space = Space(t: Tables, tier: map<nat, nat>)

  ghost predicate Root(s: Space, r: nat) {
    r in s.tier && s.tier[r] == 2
  }

  /** Entry `i` of table `a` is in use. */
  predicate Uses(s: Space, a: nat, i: nat) {
    Usable(s.t, a) && i < ENTRIES && Valid(s.t[a][i])
  }

  function Child(s: Space, a: nat, i: nat): nat
    requires Uses(s, a, i)
  {
    Ppn(s.t[a][i])
  }

  predicate LeadsTo(s: Space, a: nat, i: nat, c: nat) {
    Uses(s, a, i) && Child(s, a, i) == c
  }

  /** Every used entry leads one level down; a leaf table has one parent entry, and a middle table
      is only ever entered through one root index. */
  ghost predicate Tree(s: Space) {
    && s.t.Keys == s.tier.Keys
    && (forall a :: a in s.t ==> Usable(s.t, a) && s.tier[a] <= 2)
    && (forall a, i: nat :: Uses(s, a, i) ==> Passes(s.t[a][i]))
    && (forall a, i: nat :: Uses(s, a, i) && s.tier[a] > 0 ==> Child(s, a, i) in s.tier && s.tier[Child(s, a, i)] == s.tier[a] - 1)
    && (forall a, b, i: nat, j: nat :: Uses(s, a, i) && Uses(s, b, j) && s.tier[a] == s.tier[b] > 0 && Child(s, a, i) == Child(s, b, j) ==>
         i == j && (s.tier[a] == 1 ==> a == b))
  }

  /** The middle table `r` enters for `va` is also `root`'s. */
  ghost predicate Shares(s: Space, root: nat, r: nat, va: nat) {
    || r == root
    || (Uses(s, root, Px(2, va)) && Uses(s, r, Px(2, va)) && Child(s, root, Px(2, va)) == Child(s, r, Px(2, va)))
  }

  function Put(w: seq<nat>, i: nat, p: nat): seq<nat>
    requires i < |w|
  {
    seq(|w|, j requires 0 <= j < |w| => if j == i then p else w[j])
  }

  // ---- The two stores of `map` -------------------------------------------------------------

  /** A fresh page holding `w` becomes the child of entry `i` of table `a`. */
  function Linked(s: Space, a: nat, i: nat, c: nat, w: seq<nat>, perm: nat): Space
    requires Usable(s.t, a) && i < ENTRIES && a in s.tier && s.tier[a] > 0 && Perm(perm)
  {
    Space(s.t[a := Put(s.t[a], i, Link(c, perm))][c := w], s.tier[c := s.tier[a] - 1])
  }

  function Stored(s: Space, a: nat, i: nat, p: nat): Space
    requires Usable(s.t, a) && i < ENTRIES
  {
    s.(t := s.t[a := Put(s.t[a], i, p)])
  }

  predicate Blank(w: seq<nat>) {
    |w| == ENTRIES && forall i :: 0 <= i < ENTRIES ==> w[i] == 0
  }

  lemma LinkedTree(s: Space, a: nat, i: nat, c: nat, w: seq<nat>, perm: nat)
    requires Tree(s) && a in s.tier && s.tier[a] > 0 && i < ENTRIES && !Uses(s, a, i)
    requires c !in s.t && c < PAGES && Blank(w) && Perm(perm)
    ensures Tree(Linked(s, a, i, c, w, perm)) && LeadsTo(Linked(s, a, i, c, w, perm), a, i, c)
  {
    hide Link, Ppn, Passes, Valid;
    var s' := Linked(s, a, i, c, w, perm);
    LinkFields(c, perm);
    ValidPasses();
    forall b, j: nat | Uses(s', b, j)
      ensures (b == a && j == i && Child(s', b, j) == c) || (Uses(s, b, j) && s'.t[b][j] == s.t[b][j])
    {
    }
  }

  lemma ValidPasses()
    ensures !Valid(0) && forall p :: Passes(p) ==> Valid(p)
  {
  }

  /** Linking a blank table translates every address as before. */
  lemma {:induction false} LinkedWalk(s: Space, a: nat, i: nat, c: nat, w: seq<nat>, perm: nat, b: nat, va: nat)
    requires Tree(s) && a in s.tier && s.tier[a] > 0 && i < ENTRIES && !Uses(s, a, i)
    requires c !in s.t && c < PAGES && Blank(w) && Perm(perm) && b in s.tier
    ensures Walk(Linked(s, a, i, c, w, perm).t, b, s.tier[b], va) == Walk(s.t, b, s.tier[b], va)
    decreases s.tier[b]
  {
    hide Link, Ppn, Px, Readable, Writable;
    LinkFields(c, perm);
    var j := Px(s.tier[b], va);
    if Uses(s, b, j) && s.tier[b] > 0 {
      assert Child(s, b, j) in s.tier;
      LinkedWalk(s, a, i, c, w, perm, Child(s, b, j), va);
    }
  }

  /** What the assumption buys: an address that nobody mapped, in a table linked without being
      cleared, translates exactly as the stale word at its place says: as an entry in a leaf table,
      and through whatever table it names in a middle one. */
  lemma StaleTable(s: Space, a: nat, c: nat, w: seq<nat>, perm: nat, va: nat)
    requires Tree(s) && a in s.tier && s.tier[a] > 0 && !Uses(s, a, Px(s.tier[a], va))
    requires c !in s.t && c < PAGES && |w| == ENTRIES && Perm(perm)
    ensures Walk(s.t, a, s.tier[a], va) == None
    ensures var t, e := Linked(s, a, Px(s.tier[a], va), c, w, perm).t, w[Px(s.tier[a] - 1, va)];
      && (s.tier[a] == 1 ==> Walk(t, a, 1, va) == if Passes(e) then Some(e) else None)
      && (s.tier[a] == 2 ==> Walk(t, a, 2, va) == if Passes(e) then Walk(t, Ppn(e), 0, va) else None)
      && (s.tier[a] == 2 && Ppn(e) != a && Ppn(e) != c ==> Walk(t, Ppn(e), 0, va) == Walk(s.t, Ppn(e), 0, va))
  {
    hide Link, Ppn, Px, Passes, Valid;
    LinkFields(c, perm);
    ValidPasses();
    var i := Px(s.tier[a], va);
    var t, e := Linked(s, a, i, c, w, perm).t, w[Px(s.tier[a] - 1, va)];
    assert Usable(t, a) && t[a][i] == Link(c, perm);
    assert Walk(t, a, s.tier[a], va) == Walk(t, c, s.tier[a] - 1, va);
    assert Usable(t, c) && t[c][Px(s.tier[a] - 1, va)] == e;
  }

  lemma StoredTree(s: Space, a: nat, i: nat, p: nat)
    requires Tree(s) && a in s.tier && s.tier[a] == 0 && i < ENTRIES && Passes(p)
    ensures Tree(Stored(s, a, i, p))
  {
    hide Ppn, Passes, Valid;
    var s' := Stored(s, a, i, p);
    forall b, j: nat | Uses(s', b, j)
      ensures (b == a && j == i) || (Uses(s, b, j) && s'.t[b][j] == s.t[b][j])
    {
    }
  }

  /** A store in a leaf table changes the walks that read that entry, and no other. */
  lemma {:induction false} StoredWalk(s: Space, a: nat, i: nat, p: nat, b: nat, va: nat)
    requires Tree(s) && a in s.tier && s.tier[a] == 0 && i < ENTRIES && Passes(p) && b in s.tier
    ensures Walk(Stored(s, a, i, p).t, b, s.tier[b], va) ==
      if TableAt(s.t, b, s.tier[b], 0, va) == Some(a) && Px(0, va) == i then Some(p) else Walk(s.t, b, s.tier[b], va)
    decreases s.tier[b]
  {
    hide Ppn, Px, Readable, Writable;
    var j := Px(s.tier[b], va);
    if Uses(s, b, j) && s.tier[b] > 0 {
      StoredWalk(s, a, i, p, Child(s, b, j), va);
    }
  }

  /** Two walks from roots that meet in a leaf table took the same indices. */
  lemma Meet(s: Space, r: nat, q: nat, va: nat, vb: nat)
    requires Tree(s) && Root(s, r) && Root(s, q)
    requires TableAt(s.t, r, 2, 0, va) == TableAt(s.t, q, 2, 0, vb) != None
    ensures Px(1, va) == Px(1, vb) && Px(2, va) == Px(2, vb) && Shares(s, r, q, va)
  {
    hide Ppn, Px, Passes, Readable, Writable, Valid;
    ValidPasses();
    var m, n := Child(s, r, Px(2, va)), Child(s, q, Px(2, vb));
    assert TableAt(s.t, m, 1, 0, va) == TableAt(s.t, r, 2, 0, va);
    assert TableAt(s.t, n, 1, 0, vb) == TableAt(s.t, q, 2, 0, vb);
    assert Uses(s, m, Px(1, va)) && Uses(s, n, Px(1, vb));
    assert Child(s, m, Px(1, va)) == Child(s, n, Px(1, vb));
  }

  /** Roots that share the middle table reach the same leaf table. */
  lemma SharedTable(s: Space, root: nat, r: nat, va: nat)
    requires Tree(s) && Root(s, root) && Root(s, r) && Shares(s, root, r, va)
    ensures TableAt(s.t, r, 2, 0, va) == TableAt(s.t, root, 2, 0, va)
    ensures Walk(s.t, r, 2, va) == Walk(s.t, root, 2, va)
  {
    hide Ppn, Px, Readable, Writable, Valid;
    ValidPasses();
  }
}
