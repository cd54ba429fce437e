/** The pages of the free blocks, and what an allocation takes from them. */
module FreePages {
  import opened Blocks

  /** Page `x` belongs to the free block at `p`. */
  ghost predicate InBlock(s: State, p: nat, x: nat) {
    p in s.blocks && s.blocks[p].free && p <= x < End(s, p)
  }

  ghost predicate Covered(s: State, x: nat) {
    exists p :: InBlock(s, p, x)
  }

  /** Halving a block frees nothing and takes nothing. */
  lemma HalvePages(s: State, t: nat, x: nat)
    requires Valid(s) && 0 < t < ORDERS && s.lists[t] != []
    ensures Covered(Halve(s, t), x) <==> Covered(s, x)
  {
    hide Tiled, Listed, Pow2;
    ListedAt(s, t, 0);
    var p: nat, h := s.lists[t][0], Halve(s, t);
    var q: nat := p + Pow2(t - 1);
    ListedAt(s, t, p);
    PowStep(t);
    NotInside(s, p, q);
    if Covered(h, x) {
      var b :| InBlock(h, b, x);
      assert InBlock(s, if b == q then p else b, x);
    }
    if Covered(s, x) {
      var b :| InBlock(s, b, x);
      assert InBlock(h, if b == p && x >= q then q else b, x);
    }
  }

  /** Taking a block takes its pages. */
  lemma TakePages(s: State, k: nat, i: nat, x: nat)
    requires Valid(s) && k < ORDERS && i < |s.lists[k]|
    ensures Covered(Take(s, k, i), x) <==> Covered(s, x) && !(s.lists[k][i] <= x < s.lists[k][i] + Pow2(k))
  {
    hide Tiled, Listed, Pow2;
    ListedAt(s, k, 0);
    var p: nat, r := s.lists[k][i], Take(s, k, i);
    ListedAt(s, k, p);
    if Covered(r, x) {
      var b :| InBlock(r, b, x);
      TiledAt(s, p, b);
      assert InBlock(s, b, x);
    }
    if Covered(s, x) && !(p <= x < p + Pow2(k)) {
      var b :| InBlock(s, b, x);
      assert InBlock(r, b, x);
    }
  }

  lemma {:induction false} SplitPages(s: State, t: nat, small: nat, x: nat)
    requires Valid(s) && small < t < ORDERS && s.lists[t] != []
    requires forall j :: small <= j < t ==> s.lists[j] == []
    ensures Covered(Split(s, t, small), x) <==> Covered(s, x) && !(s.lists[t][0] <= x < s.lists[t][0] + Pow2(small))
    decreases t
  {
    hide Tiled, Listed, Pow2, Covered;
    ListedAt(s, t, 0);
    HalveValid(s, t);
    HalvedLists(s, t);
    HalvePages(s, t, x);
    var h := Halve(s, t);
    if t - 1 > small {
      SplitPages(h, t - 1, small, x);
    } else {
      TakePages(h, small, 0, x);
    }
  }

  /** An allocation takes the pages of its block, all of them free, and no other. */
  lemma AllocatePages(s: State, order: nat)
    requires Valid(s) && Allocate(s, order).Got?
    ensures var p, r := Allocate(s, order).page, Allocate(s, order).s;
      && Valid(r) && p + Pow2(order) <= NPAGE
      && (forall x: nat :: p <= x < p + Pow2(order) ==> Covered(s, x))
      && (forall x: nat :: Covered(r, x) <==> Covered(s, x) && !(p <= x < p + Pow2(order)))
  {
    hide Tiled, Listed, Pow2, Covered, Split, Take;
    ListedAt(s, 0, 0);
    AllocateSpec(s, order);
    var p, r, t := Allocate(s, order).page, Allocate(s, order).s, FirstFit(s.lists, order);
    TiledAt(r, p, p);
    forall x: nat
      ensures Covered(r, x) <==> Covered(s, x) && !(p <= x < p + Pow2(order))
    {
      if t == order { TakePages(s, order, 0, x); } else { SplitPages(s, t, order, x); }
    }
    ListedAt(s, t, p);
    Pow2Mono(order, t);
    forall x: nat | p <= x < p + Pow2(order)
      ensures Covered(s, x)
    {
      BlockCovers(s, p, x);
    }
  }

  lemma BlockCovers(s: State, p: nat, x: nat)
    requires InBlock(s, p, x)
    ensures Covered(s, x)
  {
  }

  /** Free pages side by side do not serve a request that no free block is large enough for: pages
      `p` and `p + 1` in one block, `p + 2` in another, and three pages asked for. */
  lemma Fragmented(s: State, p: nat)
    requires Valid(s) && p in s.blocks && s.blocks[p] == Block(1, true) && p + 2 in s.blocks && s.blocks[p + 2] == Block(0, true)
    requires forall b :: b in s.blocks && s.blocks[b].free ==> s.blocks[b].order <= 1
    ensures Covered(s, p) && Covered(s, p + 1) && Covered(s, p + 2)
    ensures Allocate(s, 2) == OutOfMemory
  {
    assert Pow2(1) == 2 && Pow2(0) == 1;
    BlockCovers(s, p, p);
    BlockCovers(s, p, p + 1);
    BlockCovers(s, p + 2, p + 2);
    AllocateSpec(s, 2);
  }

  /** Blocks of orders 2 to `n` in use, each as far from the beginning as it is long. */
  function Powers(n: nat): map<nat, Block> {
    if n < 2 then map[] else Powers(n - 1)[Pow2(n) := Block(n, false)]
  }

  lemma {:induction false} PowersAt(n: nat, i: nat)
    requires 2 <= i <= n
    ensures Pow2(i) in Powers(n) && Powers(n)[Pow2(i)] == Block(i, false) && Pow2(i) >= 4
  {
    hide Pow2;
    Pow2Mono(2, i);
    Four();
    if i < n {
      PowersAt(n - 1, i);
      Pow2Mono(i, n);
    }
  }

  lemma Four()
    ensures Pow2(0) == 1 && Pow2(1) == 2 && Pow2(2) == 4
  {
  }

  ghost function OrderAt(n: nat, p: nat): (i: nat)
    requires p in Powers(n)
    ensures 2 <= i <= n && p == Pow2(i) && Powers(n)[p] == Block(i, false) && p >= 4
  {
    Four();
    Pow2Mono(2, n);
    if p == Pow2(n) then n else OrderAt(n - 1, p)
  }

  /** Everything in use but pages 0 to 2. */
  function Scattered(): State {
    State(Powers(TOP)[0 := Block(1, true)][2 := Block(0, true)][3 := Block(0, false)],
      seq(ORDERS, k => if k == 0 then [2] else if k == 1 then [0] else []))
  }

  lemma ScatteredFollows(p: nat)
    requires p in Scattered().blocks
    ensures Follows(Scattered(), p)
  {
    hide Powers, Pow2;
    Four();
    Pow2Top();
    PowersAt(TOP, 2);
    if p in Powers(TOP) {
      var i := OrderAt(TOP, p);
      PowStep(i + 1);
      if i < TOP {
        PowersAt(TOP, i + 1);
        Pow2Mono(i + 1, TOP);
      }
    }
  }

  lemma ScatteredApart(p: nat, q: nat)
    requires p in Scattered().blocks && q in Scattered().blocks
    ensures Apart(Scattered(), p, q)
  {
    hide Powers, Pow2;
    Four();
    if q in Powers(TOP) {
      var j := OrderAt(TOP, q);
      if p in Powers(TOP) && p < q {
        var i := OrderAt(TOP, p);
        if j <= i { Pow2Mono(j, i); } else { Pow2Mono(i + 1, j); PowStep(i + 1); }
      }
    } else if p in Powers(TOP) {
      var i := OrderAt(TOP, p);
    }
  }

  lemma ScatteredValid()
    ensures Valid(Scattered())
  {
    hide Tiled, Listed, Powers, Follows, Apart;
    var s := Scattered();
    forall p | p in s.blocks ensures Follows(s, p) { ScatteredFollows(p); }
    forall p, q | p in s.blocks && q in s.blocks ensures Apart(s, p, q) { ScatteredApart(p, q); }
    MakeTiled(s);
    forall p | p in s.blocks ensures s.blocks[p].free ==> p == 0 || p == 2 {
      if p in Powers(TOP) { var i := OrderAt(TOP, p); }
    }
    MakeListed(s);
  }

  /** So a request of three pages fails on a memory whose first three pages are free. */
  lemma ScatteredFails()
    ensures var s := Scattered();
      Valid(s) && Covered(s, 0) && Covered(s, 1) && Covered(s, 2) && Allocate(s, 2) == OutOfMemory
  {
    hide Tiled, Listed, Powers, Covered, Allocate;
    var s := Scattered();
    ScatteredValid();
    forall p | p in s.blocks && s.blocks[p].free ensures s.blocks[p].order <= 1 {
      if p in Powers(TOP) { var i := OrderAt(TOP, p); }
    }
    Fragmented(s, 0);
  }
}
