/** The kernel half of every process table: alloc_pgtable copies the kernel's root (sched.c:25-36),
    umap maps at root entries the kernel leaves unused (sched.c:258-261). */
module KernelHalf {
  import opened Options
  import opened PageTables
  import opened Mapping

  /** `r` enters the kernel's middle tables wherever the kernel has one. */
  ghost predicate CopiesKernel(s: Space, k: nat, r: nat) {
    forall i: nat :: Uses(s, k, i) ==> Uses(s, r, i) && s.t[r][i] == s.t[k][i]
  }

  /** The tables of the processes `ps` share the kernel's half and nothing else. */
  ghost predicate Half(s: Space, k: nat, ps: set<nat>) {
    && Tree(s) && Root(s, k) && k !in ps
    && (forall r :: r in ps ==> Root(s, r) && CopiesKernel(s, k, r))
    && (forall q, r, i: nat :: q in ps + {k} && r in ps + {k} && q != r && Uses(s, q, i) && Uses(s, r, i) && Child(s, q, i) == Child(s, r, i) ==>
          Uses(s, k, i))
  }

  /** Kernel addresses translate the same everywhere. */
  lemma KernelAddress(s: Space, k: nat, ps: set<nat>, r: nat, va: nat)
    requires Half(s, k, ps) && r in ps && Uses(s, k, Px(2, va))
    ensures Walk(s.t, r, 2, va) == Walk(s.t, k, 2, va)
  {
    hide Walk, Tree, Valid, Ppn, Px;
    SharedTable(s, k, r, va);
  }

  // ---- The two steps -----------------------------------------------------------------------

  /** A new root holds the words of the kernel's. */
  function RootCopy(s: Space, k: nat, r: nat): Space
    requires k in s.t
  {
    Space(s.t[r := s.t[k]], s.tier[r := 2])
  }

  lemma {:induction false} CopyWalk(s: Space, k: nat, r: nat, b: nat, va: nat)
    requires Tree(s) && Root(s, k) && r !in s.t && b in s.tier
    ensures Walk(RootCopy(s, k, r).t, b, s.tier[b], va) == Walk(s.t, b, s.tier[b], va)
    decreases s.tier[b]
  {
    hide Ppn, Px, Readable, Writable;
    if s.tier[b] > 0 && Uses(s, b, Px(s.tier[b], va)) {
      CopyWalk(s, k, r, Child(s, b, Px(s.tier[b], va)), va);
    }
  }

  lemma CopyTree(s: Space, k: nat, r: nat)
    requires Tree(s) && Root(s, k) && r !in s.t
    ensures Tree(RootCopy(s, k, r))
  {
    hide Ppn, Passes, Valid;
    var s' := RootCopy(s, k, r);
    forall b, j: nat | Uses(s', b, j)
      ensures b == r ==> Uses(s, k, j) && s'.t[b][j] == s.t[k][j]
      ensures b != r ==> Uses(s, b, j) && s'.t[b][j] == s.t[b][j]
    {
    }
  }

  /** A process creation: the new table translates as the kernel's, every other as before. */
  lemma CopyKeepsHalf(s: Space, k: nat, ps: set<nat>, r: nat)
    requires Half(s, k, ps) && r !in s.t
    ensures Half(RootCopy(s, k, r), k, ps + {r})
    ensures forall q, va: nat :: Root(s, q) ==> Walk(RootCopy(s, k, r).t, q, 2, va) == Walk(s.t, q, 2, va)
    ensures forall va: nat :: Walk(RootCopy(s, k, r).t, r, 2, va) == Walk(s.t, k, 2, va)
  {
    hide Ppn, Passes, Valid, Px, Tree, Walk;
    SameKeys(s);
    var s' := RootCopy(s, k, r);
    CopyTree(s, k, r);
    forall q, va: nat | Root(s, q)
      ensures Walk(s'.t, q, 2, va) == Walk(s.t, q, 2, va)
    {
      CopyWalk(s, k, r, q, va);
    }
    forall va: nat
      ensures Walk(s'.t, r, 2, va) == Walk(s'.t, k, 2, va)
    {
      SameRoot(s'.t, k, r, va);
    }
    CopyShares(s, k, ps, r);
  }

  lemma SameRoot(t: Tables, k: nat, r: nat, va: nat)
    requires k in t && r in t && t[r] == t[k]
    ensures Walk(t, r, 2, va) == Walk(t, k, 2, va)
  {
    hide Px, Passes, Ppn;
  }

  lemma CopyShares(s: Space, k: nat, ps: set<nat>, r: nat)
    requires Half(s, k, ps) && r !in s.t && Tree(RootCopy(s, k, r))
    ensures Half(RootCopy(s, k, r), k, ps + {r})
  {
    hide Ppn, Passes, Valid, Tree;
    SameKeys(s);
    var s' := RootCopy(s, k, r);
    forall q, p, i: nat | q in ps + {r} + {k} && p in ps + {r} + {k} && q != p && Uses(s', q, i) && Uses(s', p, i) && Child(s', q, i) == Child(s', p, i)
      ensures Uses(s', k, i)
    {
      var q0, p0 := if q == r then k else q, if p == r then k else p;
      assert Uses(s, q0, i) && Uses(s, p0, i) && Child(s, q0, i) == Child(s, p0, i);
    }
  }

  /** No page of the range lies under a root entry of the kernel. */
  ghost predicate UserPages(s: Space, k: nat, lo: nat, n: nat) {
    forall va: nat :: lo <= va / PGSIZE < lo + n ==> !Uses(s, k, Px(2, va))
  }

  /** A process's mapping is invisible to the kernel and to every other process. */
  lemma MapKeepsHalf(s: Space, s': Space, k: nat, ps: set<nat>, root: nat, lo: nat, n: nat, pa: nat, perm: nat)
    requires Perm(perm) && Half(s, k, ps) && root in ps && UserPages(s, k, lo, n)
    requires Extends(s, s', root) && Mapped(s, s', root, lo, n, pa, perm)
    ensures Half(s', k, ps)
    ensures forall i: nat :: Uses(s', k, i) <==> Uses(s, k, i)
    ensures forall q, va: nat :: q in ps + {k} && q != root && va < SPACE ==> Walk(s'.t, q, 2, va) == Walk(s.t, q, 2, va)
  {
    hide Ppn, Passes, Valid, Px, Tree, Walk, Leaf;
    SameKeys(s);
    ExtendsHalf(s, s', k, ps, root);
    forall q, va: nat | q in ps + {k} && q != root && va < SPACE
      ensures Walk(s'.t, q, 2, va) == Walk(s.t, q, 2, va)
    {
      assert Root(s, q);
      assert Walk(s'.t, q, 2, va) == After(s, root, lo, n, pa, perm, q, va);
      if lo <= va / PGSIZE < lo + n && Shares(s, root, q, va) {
        assert false;
      }
    }
  }

  lemma ExtendsHalf(s: Space, s': Space, k: nat, ps: set<nat>, root: nat)
    requires Half(s, k, ps) && root in ps && Extends(s, s', root)
    ensures Half(s', k, ps) && forall i: nat :: Uses(s', k, i) <==> Uses(s, k, i)
  {
    hide Ppn, Passes, Valid, Tree;
    SameKeys(s);
    SameKeys(s');
    assert s'.t[k] == s.t[k];
    forall q, r, i: nat | q in ps + {k} && r in ps + {k} && q != r && Uses(s', q, i) && Uses(s', r, i) && Child(s', q, i) == Child(s', r, i)
      ensures Uses(s', k, i)
    {
      OldEntry(s, s', root, q, r, i);
      OldEntry(s, s', root, r, q, i);
    }
  }

  /** Sharing an entry with another root proves it old. */
  lemma OldEntry(s: Space, s': Space, root: nat, q: nat, r: nat, i: nat)
    requires Extends(s, s', root) && Root(s, q) && Root(s, r) && q != r
    requires Uses(s', q, i) && Uses(s', r, i) && Child(s', q, i) == Child(s', r, i)
    ensures Uses(s, q, i) && Child(s, q, i) == Child(s', q, i)
  {
    hide Ppn, Passes, Valid;
    if q != root {
      assert s'.t[q] == s.t[q];
    } else {
      assert s'.t[r] == s.t[r] && Uses(s, r, i) && Child(s, r, i) in s.t;
    }
  }

  // ---- Whole runs --------------------------------------------------------------------------

  datatype Tabs = Tabs(s: Space, ps: set<nat>)

  /** One creation or one umap of process `root` at user pages, from `x` to `y`. */
  ghost predicate Creates(k: nat, x: Tabs, y: Tabs, r: nat) {
    k in x.s.t && r !in x.s.t && y == Tabs(RootCopy(x.s, k, r), x.ps + {r})
  }

  ghost predicate Umaps(k: nat, x: Tabs, y: Tabs, root: nat, lo: nat, n: nat, pa: nat) {
    root in x.ps && y.ps == x.ps && UserPages(x.s, k, lo, n) && Extends(x.s, y.s, root) && Mapped(x.s, y.s, root, lo, n, pa, PTE_U)
  }

  ghost predicate Next(k: nat, x: Tabs, y: Tabs, root: nat) {
    || Creates(k, x, y, root)
    || exists lo, n, pa :: Umaps(k, x, y, root, lo, n, pa)
  }

  /** `who[i]` is the process of step `i`. */
  ghost predicate Run(k: nat, xs: seq<Tabs>, who: seq<nat>) {
    |xs| == |who| + 1 && forall i :: 0 <= i < |who| ==> Next(k, xs[i], xs[i + 1], who[i])
  }

  lemma StepKeeps(k: nat, x: Tabs, y: Tabs, root: nat)
    requires Half(x.s, k, x.ps) && Next(k, x, y, root)
    ensures Half(y.s, k, y.ps) && x.ps <= y.ps <= x.ps + {root} && forall i: nat :: Uses(y.s, k, i) <==> Uses(x.s, k, i)
    ensures forall q, va: nat :: q in x.ps + {k} && q != root && va < SPACE ==> Walk(y.s.t, q, 2, va) == Walk(x.s.t, q, 2, va)
  {
    hide Ppn, Passes, Valid, Px, Tree, Walk, Leaf, Extends, Mapped, UserPages;
    if Creates(k, x, y, root) {
      CopyKeepsHalf(x.s, k, x.ps, root);
    } else {
      var lo, n, pa :| Umaps(k, x, y, root, lo, n, pa);
      MapKeepsHalf(x.s, y.s, k, x.ps, root, lo, n, pa, PTE_U);
    }
  }

  /** Processes that take no step translate as before. */
  ghost predicate OthersKept(x: Tabs, z: Tabs, who: seq<nat>) {
    forall q, va: nat :: q in x.ps && q !in who && va < SPACE ==>
      Walk(z.s.t, q, 2, va) == Walk(x.s.t, q, 2, va) && q in z.ps
  }

  lemma OthersStep(x: Tabs, y: Tabs, z: Tabs, who: seq<nat>, w: nat)
    requires OthersKept(x, y, who) && y.ps <= z.ps
    requires forall q, va: nat :: q in y.ps && q != w && va < SPACE ==> Walk(z.s.t, q, 2, va) == Walk(y.s.t, q, 2, va)
    ensures OthersKept(x, z, who + [w])
  {
    forall q, va: nat | q in x.ps && q !in who + [w] && va < SPACE
      ensures Walk(z.s.t, q, 2, va) == Walk(x.s.t, q, 2, va) && q in z.ps
    {
      assert q !in who && q != w;
      assert Walk(y.s.t, q, 2, va) == Walk(x.s.t, q, 2, va) && q in y.ps;
    }
  }

  /** Over every run the kernel's translations never change and every process has them; a
      process's other translations change in its own steps only. */
  lemma {:induction false} RunKeeps(k: nat, xs: seq<Tabs>, who: seq<nat>)
    requires Run(k, xs, who) && Half(xs[0].s, k, xs[0].ps)
    ensures var z := xs[|who|];
      && Half(z.s, k, z.ps)
      && (forall va: nat :: va < SPACE ==> Walk(z.s.t, k, 2, va) == Walk(xs[0].s.t, k, 2, va))
      && (forall r, va: nat :: r in z.ps && va < SPACE && Uses(xs[0].s, k, Px(2, va)) ==> Walk(z.s.t, r, 2, va) == Walk(xs[0].s.t, k, 2, va))
      && OthersKept(xs[0], z, who)
      && (forall i: nat :: Uses(z.s, k, i) <==> Uses(xs[0].s, k, i))
    decreases |who|
  {
    hide Ppn, Passes, Valid, Px, Tree, Walk, Leaf, Extends, Mapped, UserPages, Next, Uses;
    var n := |who|;
    if n > 0 {
      var ys := xs[..n];
      assert ys[0] == xs[0] && ys[n - 1] == xs[n - 1];
      RunKeeps(k, ys, who[..n - 1]);
      KernelIsNobody(k, xs[n - 1], xs[n], who[n - 1]);
      StepKeeps(k, xs[n - 1], xs[n], who[n - 1]);
      assert who == who[..n - 1] + [who[n - 1]];
      OthersStep(xs[0], xs[n - 1], xs[n], who[..n - 1], who[n - 1]);
    }
    var z := xs[n];
    forall r, va: nat | r in z.ps && va < SPACE && Uses(xs[0].s, k, Px(2, va))
      ensures Walk(z.s.t, r, 2, va) == Walk(z.s.t, k, 2, va)
    {
      KernelAddress(z.s, k, z.ps, r, va);
    }
  }

  lemma KernelIsNobody(k: nat, x: Tabs, y: Tabs, root: nat)
    requires Half(x.s, k, x.ps) && Next(k, x, y, root)
    ensures root != k
  {
    hide Tree, Mapped, Extends, UserPages;
  }
}
