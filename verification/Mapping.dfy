/** What `map` does to every translation of every table, and the code of `map` and `trans` (vms.c). */
module Mapping {
  import opened Bytes
  import opened Options
  import opened PageTables

  // ---- The law of `map` --------------------------------------------------------------------

  /** The translation of `va` through `r` once pages lo..lo + n of `root` lead to `pa` onwards. */
  ghost function After(s: Space, root: nat, lo: nat, n: nat, pa: nat, perm: nat, r: nat, va: nat): Option<nat>
    requires Perm(perm)
  {
    if lo <= va / PGSIZE < lo + n && Shares(s, root, r, va) then Some(Leaf(pa + (va / PGSIZE - lo) * PGSIZE, perm))
    else Walk(s.t, r, 2, va)
  }

  ghost predicate Mapped(s: Space, s': Space, root: nat, lo: nat, n: nat, pa: nat, perm: nat)
    requires Perm(perm)
  {
    forall r, va: nat :: Root(s, r) && va < SPACE ==> Walk(s'.t, r, 2, va) == After(s, root, lo, n, pa, perm, r, va)
  }

  /** Both are trees; of the roots only `root` changes, and there only where an entry was unused. */
  ghost predicate Extends(s: Space, s': Space, root: nat) {
    && Tree(s) && Tree(s') && Root(s, root)
    && (forall a :: a in s.tier ==> a in s'.tier && s'.tier[a] == s.tier[a])
    && (forall a :: a in s'.tier && a !in s.tier ==> s'.tier[a] < 2)
    && (forall r :: Root(s, r) && r != root ==> s'.t[r] == s.t[r])
    && (forall i: nat :: Uses(s, root, i) ==> Uses(s', root, i) && s'.t[root][i] == s.t[root][i])
    && (forall i: nat :: Uses(s', root, i) && !Uses(s, root, i) ==> Child(s', root, i) !in s.t)
  }

  /** An entry that `map` makes, in a table at `level`. */
  ghost predicate Built(e: nat, level: nat, perm: nat)
    requires Perm(perm)
  {
    e == if level > 0 then Link(Ppn(e), perm) else Leaf(Ppn(e) * PGSIZE, perm)
  }

  /** Entries in use are old ones or made by `map`. */
  ghost predicate Made(s: Space, s': Space, perm: nat)
    requires Perm(perm)
  {
    forall a, i: nat :: Uses(s', a, i) ==>
      (Uses(s, a, i) && s'.t[a][i] == s.t[a][i]) || (a in s'.tier && Built(s'.t[a][i], s'.tier[a], perm))
  }

  /** All that is known of `n` pages mapped from page `lo` on. */
  ghost predicate Maps(s: Space, s': Space, root: nat, lo: nat, n: nat, pa: nat, perm: nat)
    requires Perm(perm)
  {
    Extends(s, s', root) && Mapped(s, s', root, lo, n, pa, perm) && Made(s, s', perm)
  }

  lemma MadeTrans(s: Space, s1: Space, s2: Space, root: nat, perm: nat)
    requires Perm(perm) && Made(s, s1, perm) && Made(s1, s2, perm) && Extends(s1, s2, root)
    ensures Made(s, s2, perm)
  {
    hide Tree, Passes, Valid, Ppn, Link, Leaf, Built;
  }

  lemma ExtendsTrans(s: Space, s1: Space, s2: Space, root: nat)
    requires Extends(s, s1, root) && Extends(s1, s2, root)
    ensures Extends(s, s2, root)
  {
    hide Passes, Valid, Ppn, Tree;
    SameKeys(s);
    SameKeys(s1);
  }

  lemma SameKeys(s: Space)
    requires Tree(s)
    ensures s.t.Keys == s.tier.Keys
  {
  }

  /** Mapping on changes no sharing. */
  lemma SharingKept(s: Space, s': Space, root: nat, r: nat, va: nat)
    requires Extends(s, s', root) && Root(s, r)
    ensures Shares(s', root, r, va) <==> Shares(s, root, r, va)
  {
    hide Passes, Valid, Ppn, Px;
    var i := Px(2, va);
    if r != root && Uses(s', root, i) && Uses(s, r, i) {
      assert Uses(s', r, i) && Child(s', r, i) == Child(s, r, i) && Child(s, r, i) in s.t;
    }
  }

  /** One more page after `k`. */
  lemma MappedStep(s: Space, s1: Space, s2: Space, root: nat, lo: nat, k: nat, pa: nat, perm: nat)
    requires Perm(perm) && Extends(s, s1, root) && Extends(s1, s2, root)
    requires Mapped(s, s1, root, lo, k, pa, perm) && Mapped(s1, s2, root, lo + k, 1, pa + k * PGSIZE, perm)
    ensures Extends(s, s2, root) && Mapped(s, s2, root, lo, k + 1, pa, perm)
  {
    hide Leaf, Walk, Shares, Tree;
    ExtendsTrans(s, s1, s2, root);
    forall r, va: nat | Root(s, r) && va < SPACE
      ensures Walk(s2.t, r, 2, va) == After(s, root, lo, k + 1, pa, perm, r, va)
    {
      SharingKept(s, s1, root, r, va);
      assert Root(s1, r);
      assert va / PGSIZE == lo + k ==> pa + (va / PGSIZE - lo) * PGSIZE == pa + k * PGSIZE + (va / PGSIZE - (lo + k)) * PGSIZE;
    }
  }

  lemma MapsNothing(s: Space, root: nat, lo: nat, pa: nat, perm: nat)
    requires Tree(s) && Root(s, root) && Perm(perm)
    ensures Maps(s, s, root, lo, 0, pa, perm)
  {
  }

  lemma MapsStep(s: Space, s1: Space, s2: Space, root: nat, lo: nat, k: nat, pa: nat, perm: nat)
    requires Perm(perm) && Maps(s, s1, root, lo, k, pa, perm) && Maps(s1, s2, root, lo + k, 1, pa + k * PGSIZE, perm)
    ensures Maps(s, s2, root, lo, k + 1, pa, perm)
  {
    hide Extends, Mapped, Made;
    MappedStep(s, s1, s2, root, lo, k, pa, perm);
    MadeTrans(s, s1, s2, root, perm);
  }

  /** A table linked in between maps nothing, before a page or after it. */
  lemma MapsLinked(s: Space, s1: Space, s2: Space, root: nat, lo: nat, k: nat, pa: nat, perm: nat, pb: nat)
    requires Perm(perm) && Maps(s, s1, root, lo, k, pa, perm) && Maps(s1, s2, root, lo + k, 0, pb, perm)
    ensures Maps(s, s2, root, lo, k, pa, perm)
  {
    hide Tree, Walk, Leaf, Shares, Made;
    ExtendsTrans(s, s1, s2, root);
    MadeTrans(s, s1, s2, root, perm);
    assert forall r :: Root(s, r) ==> Root(s1, r);
  }

  // ---- Following and extending one path ----------------------------------------------------

  lemma {:induction false} TableTier(s: Space, b: nat, to: nat, va: nat)
    requires Tree(s) && b in s.tier && to <= s.tier[b] && TableAt(s.t, b, s.tier[b], to, va).Some?
    ensures var a := TableAt(s.t, b, s.tier[b], to, va).value; a in s.tier && s.tier[a] == to && Usable(s.t, a)
    decreases s.tier[b]
  {
    hide Ppn, Px, Readable, Writable, Valid;
    ValidPasses();
    if to < s.tier[b] {
      assert Uses(s, b, Px(s.tier[b], va));
      TableTier(s, Child(s, b, Px(s.tier[b], va)), to, va);
    }
  }

  /** One level further down. */
  lemma {:induction false} TableBelow(s: Space, b: nat, to: nat, va: nat)
    requires Tree(s) && b in s.tier && 0 < to <= s.tier[b] && TableAt(s.t, b, s.tier[b], to, va).Some?
    ensures var a := TableAt(s.t, b, s.tier[b], to, va).value;
      && Usable(s.t, a)
      && (Uses(s, a, Px(to, va)) ==> TableAt(s.t, b, s.tier[b], to - 1, va) == Some(Child(s, a, Px(to, va))))
    decreases s.tier[b]
  {
    hide Ppn, Px, Readable, Writable, Valid;
    ValidPasses();
    if to < s.tier[b] {
      assert Uses(s, b, Px(s.tier[b], va));
      TableBelow(s, Child(s, b, Px(s.tier[b], va)), to, va);
    }
  }

  /** The walk ends with the entry of the leaf table on the path. */
  lemma {:induction false} WalkAt(s: Space, b: nat, va: nat)
    requires Tree(s) && b in s.tier && TableAt(s.t, b, s.tier[b], 0, va).Some?
    ensures var a := TableAt(s.t, b, s.tier[b], 0, va).value;
      && Usable(s.t, a)
      && Walk(s.t, b, s.tier[b], va) == if Valid(s.t[a][Px(0, va)]) then Some(s.t[a][Px(0, va)]) else None
    decreases s.tier[b]
  {
    hide Ppn, Px, Readable, Writable, Valid;
    ValidPasses();
    if 0 < s.tier[b] {
      assert Uses(s, b, Px(s.tier[b], va));
      WalkAt(s, Child(s, b, Px(s.tier[b], va)), va);
    } else {
      assert Valid(s.t[b][Px(0, va)]) ==> Uses(s, b, Px(0, va));
    }
  }

  /** The walk stops where the path has no entry. */
  lemma {:induction false} PathEnds(s: Space, b: nat, to: nat, va: nat)
    requires Tree(s) && b in s.tier && to <= s.tier[b] && TableAt(s.t, b, s.tier[b], to, va).Some?
    ensures var a := TableAt(s.t, b, s.tier[b], to, va).value;
      Usable(s.t, a) && (!Valid(s.t[a][Px(to, va)]) ==> Walk(s.t, b, s.tier[b], va) == None)
    decreases s.tier[b]
  {
    hide Ppn, Px, Readable, Writable, Valid;
    ValidPasses();
    if to < s.tier[b] {
      assert Uses(s, b, Px(s.tier[b], va));
      PathEnds(s, Child(s, b, Px(s.tier[b], va)), to, va);
    }
  }

  /** Linking below table `a` keeps the path down to `a`. */
  lemma {:induction false} LinkedPath(s: Space, a: nat, i: nat, c: nat, w: seq<nat>, perm: nat, b: nat, va: nat)
    requires Tree(s) && a in s.tier && s.tier[a] > 0 && i < ENTRIES && !Uses(s, a, i)
    requires c !in s.t && c < PAGES && Blank(w) && Perm(perm)
    requires b in s.tier && s.tier[a] <= s.tier[b] && TableAt(s.t, b, s.tier[b], s.tier[a], va) == Some(a)
    ensures TableAt(Linked(s, a, i, c, w, perm).t, b, s.tier[b], s.tier[a], va) == Some(a)
    decreases s.tier[b]
  {
    hide Link, Ppn, Px, Readable, Writable;
    LinkFields(c, perm);
    if s.tier[a] < s.tier[b] {
      assert Uses(s, b, Px(s.tier[b], va));
      LinkedPath(s, a, i, c, w, perm, Child(s, b, Px(s.tier[b], va)), va);
    }
  }

  /** What one turn of the inner loop that allocates a table does. */
  lemma LinkStep(s: Space, root: nat, level: nat, a: nat, c: nat, w: seq<nat>, pa: nat, perm: nat, va: nat)
    requires Tree(s) && Root(s, root) && 0 < level <= 2 && TableAt(s.t, root, 2, level, va) == Some(a)
    requires Usable(s.t, a) && !Valid(s.t[a][Px(level, va)]) && a in s.tier && s.tier[a] == level
    requires c !in s.t && c < PAGES && Blank(w) && Perm(perm)
    ensures var s' := Linked(s, a, Px(level, va), c, w, perm);
      && Maps(s, s', root, va / PGSIZE, 0, pa, perm)
      && TableAt(s'.t, root, 2, level - 1, va) == Some(c)
  {
    hide Made, Link, Leaf, Ppn, Px, Passes, Valid, Tree, Walk, TableAt, Shares;
    var i := Px(level, va);
    var s' := Linked(s, a, i, c, w, perm);
    SameKeys(s);
    LinkedTree(s, a, i, c, w, perm);
    forall r, v: nat | Root(s, r) && v < SPACE
      ensures Walk(s'.t, r, 2, v) == Walk(s.t, r, 2, v)
    {
      LinkedWalk(s, a, i, c, w, perm, r, v);
    }
    LinkedPath(s, a, i, c, w, perm, root, va);
    LinkFields(c, perm);
    ValidPasses();
    assert Uses(s', a, i);
    TableBelow(s', root, level, va);
    LinkExtends(s, a, i, c, w, perm, root, level, va);
    LinkMade(s, a, i, c, w, perm);
  }

  lemma LinkMade(s: Space, a: nat, i: nat, c: nat, w: seq<nat>, perm: nat)
    requires Tree(s) && a in s.tier && s.tier[a] > 0 && Usable(s.t, a) && i < ENTRIES
    requires c !in s.t && c < PAGES && Blank(w) && Perm(perm)
    ensures Made(s, Linked(s, a, i, c, w, perm), perm)
  {
    hide Link, Leaf, Ppn, Passes, Valid;
    LinkFields(c, perm);
    ValidPasses();
  }

  lemma LinkExtends(s: Space, a: nat, i: nat, c: nat, w: seq<nat>, perm: nat, root: nat, level: nat, va: nat)
    requires Tree(s) && Root(s, root) && 0 < level <= 2 && TableAt(s.t, root, 2, level, va) == Some(a)
    requires a in s.tier && s.tier[a] == level && i < ENTRIES && !Uses(s, a, i) && Usable(s.t, a)
    requires c !in s.t && c < PAGES && Blank(w) && Perm(perm) && Tree(Linked(s, a, i, c, w, perm))
    requires LeadsTo(Linked(s, a, i, c, w, perm), a, i, c)
    ensures Extends(s, Linked(s, a, i, c, w, perm), root)
  {
    hide Link, Leaf, Ppn, Px, Passes, Valid;
    var s' := Linked(s, a, i, c, w, perm);
    forall j: nat | Uses(s', root, j) && !Uses(s, root, j)
      ensures Child(s', root, j) !in s.t
    {
      assert root == a && j == i;
    }
  }

  /** What the last turn of the inner loop does. */
  lemma StoreStep(s: Space, root: nat, a: nat, pa: nat, perm: nat, va: nat)
    requires Tree(s) && Root(s, root) && TableAt(s.t, root, 2, 0, va) == Some(a) && va < SPACE
    requires Usable(s.t, a) && a in s.tier && s.tier[a] == 0 && Perm(perm) && pa < PAGES * PGSIZE
    ensures var s' := Stored(s, a, Px(0, va), Leaf(pa, perm));
      Maps(s, s', root, va / PGSIZE, 1, pa, perm)
  {
    hide Made, Leaf, Ppn, Px, Passes, Valid, Tree, Walk, TableAt, Shares;
    LeafFields(pa, perm);
    var i := Px(0, va);
    var s' := Stored(s, a, i, Leaf(pa, perm));
    StoredTree(s, a, i, Leaf(pa, perm));
    forall r, v: nat | Root(s, r) && v < SPACE
      ensures Walk(s'.t, r, 2, v) == After(s, root, va / PGSIZE, 1, pa, perm, r, v)
    {
      StoredWalk(s, a, i, Leaf(pa, perm), r, v);
      SamePage(va, v);
      if TableAt(s.t, r, 2, 0, v) == Some(a) && Px(0, v) == i {
        Meet(s, root, r, va, v);
        assert Shares(s, root, r, v) by { ShareIndex(s, root, r, va, v); }
      } else if va / PGSIZE == v / PGSIZE && Shares(s, root, r, v) {
        SharedTable(s, root, r, v);
        TablePage(s, root, 2, va, v);
        assert false;
      }
      assert va / PGSIZE == v / PGSIZE ==> pa + (v / PGSIZE - va / PGSIZE) * PGSIZE == pa;
    }
    StoreExtends(s, a, i, Leaf(pa, perm), root);
    StoreMade(s, a, i, pa, perm);
  }

  lemma StoreMade(s: Space, a: nat, i: nat, pa: nat, perm: nat)
    requires Tree(s) && a in s.tier && s.tier[a] == 0 && Usable(s.t, a) && i < ENTRIES && Perm(perm) && pa < PAGES * PGSIZE
    ensures Made(s, Stored(s, a, i, Leaf(pa, perm)), perm)
  {
    hide Passes, Valid, Ppn, Pte;
    LeafFields(pa, perm);
    SamePte(pa, PTE_X + PTE_W + PTE_R + PTE_V + perm);
  }

  lemma SamePte(pa: nat, flags: nat)
    requires flags < 0x400
    ensures Pte(pa / PGSIZE * PGSIZE, flags) == Pte(pa, flags)
  {
    assert pa / PGSIZE * PGSIZE / PGSIZE == pa / PGSIZE;
  }

  lemma ShareIndex(s: Space, root: nat, r: nat, va: nat, v: nat)
    requires Shares(s, root, r, va) && Px(2, va) == Px(2, v)
    ensures Shares(s, root, r, v)
  {
  }

  lemma TablePage(s: Space, b: nat, level: nat, va: nat, v: nat)
    requires level <= 2 && Px(0, va) == Px(0, v) && Px(1, va) == Px(1, v) && Px(2, va) == Px(2, v)
    ensures TableAt(s.t, b, level, 0, v) == TableAt(s.t, b, level, 0, va)
    decreases level
  {
    hide Px, Ppn, Passes;
    if Usable(s.t, b) && level > 0 {
      TablePage(s, Ppn(s.t[b][Px(level, va)]), level - 1, va, v);
    }
  }

  lemma StoreExtends(s: Space, a: nat, i: nat, p: nat, root: nat)
    requires Tree(s) && Root(s, root) && a in s.tier && s.tier[a] == 0 && i < ENTRIES && Usable(s.t, a) && Tree(Stored(s, a, i, p))
    ensures Extends(s, Stored(s, a, i, p), root)
  {
    hide Ppn, Passes, Valid;
  }
}
