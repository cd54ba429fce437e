/** Whole runs of the buddy allocator: conservation, reversal of splits, disjoint live regions. */
module Accounting {
  import opened Arithmetic
  import opened Lists
  import opened Blocks

  // ---- Counting pages along the tiling ----------------------------------------------------

  /** Pages of free, or of used, blocks from `p` to the end. */
  ghost function Pages(s: State, p: nat, free: bool): (n: nat)
    requires Tiled(s) && (p == NPAGE || p in s.blocks)
    decreases NPAGE - p
  {
    if p == NPAGE then 0 else
      TiledAt(s, p, p);
      (if s.blocks[p].free == free then Pow2(s.blocks[p].order) else 0) + Pages(s, End(s, p), free)
  }

  /** Every page is in a free block or in a used one. */
  lemma {:induction false} AllPages(s: State, p: nat)
    requires Tiled(s) && (p == NPAGE || p in s.blocks) && p <= NPAGE
    ensures Pages(s, p, true) + Pages(s, p, false) == NPAGE - p
    decreases NPAGE - p
  {
    hide Tiled, Pow2;
    if p < NPAGE {
      TiledAt(s, p, p);
      AllPages(s, End(s, p));
    }
  }

  /** What buddy_statistics adds up, over orders below `k`, in pages. */
  function Counted(lists: seq<seq<nat>>, k: nat): (n: nat)
    requires k <= |lists|
  {
    if k == 0 then 0 else Counted(lists, k - 1) + |lists[k - 1]| * Pow2(k - 1)
  }

  /** The elements of a list that are pages from `p` on. */
  function From(l: seq<nat>, p: nat): (n: nat) {
    if l == [] then 0 else From(l[..|l| - 1], p) + if l[|l| - 1] >= p then 1 else 0
  }

  function CountedFrom(lists: seq<seq<nat>>, k: nat, p: nat): (n: nat)
    requires k <= |lists|
  {
    if k == 0 then 0 else CountedFrom(lists, k - 1, p) + From(lists[k - 1], p) * Pow2(k - 1)
  }

  lemma {:induction false} FromZero(l: seq<nat>)
    ensures From(l, 0) == |l|
  {
    if l != [] { FromZero(l[..|l| - 1]); }
  }

  lemma {:induction false} FromEnd(l: seq<nat>, e: nat)
    requires forall x :: x in l ==> x < e
    ensures From(l, e) == 0
  {
    if l != [] {
      var n := |l| - 1;
      var r := l[..n];
      assert l[n] in l;
      forall x | x in r ensures x < e {
        var i :| 0 <= i < n && r[i] == x;
        assert l[i] == x && x in l;
      }
      FromEnd(r, e);
    }
  }

  /** Stepping over a block whose pages hold no other element. */
  lemma {:induction false} FromStep(l: seq<nat>, p: nat, e: nat)
    requires Distinct(l) && p < e && forall x :: x in l ==> x <= p || x >= e
    ensures From(l, p) == From(l, e) + if p in l then 1 else 0
  {
    if l != [] {
      var n := |l| - 1;
      var r := l[..n];
      assert forall x :: x in l <==> x in r || x == l[n];
      assert l[n] !in r;
      FromStep(r, p, e);
    }
  }

  lemma {:induction false} CountedZero(lists: seq<seq<nat>>, k: nat)
    requires k <= |lists|
    ensures CountedFrom(lists, k, 0) == Counted(lists, k)
  {
    if k > 0 {
      CountedZero(lists, k - 1);
      FromZero(lists[k - 1]);
    }
  }

  lemma {:induction false} CountedEnd(s: State, k: nat)
    requires Valid(s) && k <= ORDERS
    ensures CountedFrom(s.lists, k, NPAGE) == 0
  {
    hide Tiled, Pow2;
    if k > 0 {
      CountedEnd(s, k - 1);
      var l := s.lists[k - 1];
      forall x | x in l ensures x < NPAGE {
        ListedAt(s, k - 1, x);
        TiledAt(s, x, x);
      }
      FromEnd(l, NPAGE);
    }
  }

  lemma {:induction false} CountedStep(s: State, k: nat, p: nat)
    requires Valid(s) && k <= ORDERS && p in s.blocks
    ensures CountedFrom(s.lists, k, p) == CountedFrom(s.lists, k, End(s, p)) +
      if s.blocks[p].free && s.blocks[p].order < k then Pow2(s.blocks[p].order) else 0
  {
    hide Tiled, Listed, Pow2, From;
    ListedAt(s, 0, 0);
    if k > 0 {
      CountedStep(s, k - 1, p);
      OrderStep(s, k - 1, p);
    }
  }

  lemma OrderStep(s: State, k: nat, p: nat)
    requires Valid(s) && k < ORDERS && p in s.blocks
    ensures |s.lists| == ORDERS
    ensures From(s.lists[k], p) * Pow2(k) ==
      From(s.lists[k], End(s, p)) * Pow2(k) + if s.blocks[p] == Block(k, true) then Pow2(k) else 0
  {
    hide Tiled, Listed, Pow2, From;
    ListedAt(s, k, p);
    var l, e := s.lists[k], End(s, p);
    forall x | x in l ensures x <= p || x >= e {
      ListedAt(s, k, x);
      TiledAt(s, p, x);
    }
    FromStep(l, p, e);
    if p in l { MulSucc(From(l, e), Pow2(k)); }
  }

  lemma {:induction false} CountedIsFree(s: State, p: nat)
    requires Valid(s) && (p == NPAGE || p in s.blocks)
    ensures CountedFrom(s.lists, ORDERS, p) == Pages(s, p, true)
    decreases NPAGE - p
  {
    hide Tiled, Listed, Pow2, CountedFrom;
    ListedAt(s, 0, 0);
    if p == NPAGE {
      CountedEnd(s, ORDERS);
    } else {
      TiledAt(s, p, p);
      CountedStep(s, ORDERS, p);
      CountedIsFree(s, End(s, p));
    }
  }

  /** Conservation: the free memory counted from the lists and the memory in use are all there is. */
  lemma Conservation(s: State)
    requires Valid(s)
    ensures Counted(s.lists, ORDERS) + Pages(s, 0, false) == NPAGE
  {
    CountedZero(s.lists, ORDERS);
    CountedIsFree(s, 0);
    AllPages(s, 0);
  }

  // ---- Freeing undoes splitting -----------------------------------------------------------

  /** The state before an allocation, but for the block used having moved to the end of its list. */
  function Rotated(s: State, t: nat): State
    requires t < |s.lists| && s.lists[t] != []
  {
    State(s.blocks, s.lists[t := s.lists[t][1..] + [s.lists[t][0]]])
  }

  lemma RotatedValid(s: State, t: nat)
    requires Valid(s) && t < ORDERS && s.lists[t] != []
    ensures Valid(Rotated(s, t))
    ensures var p := s.lists[t][0]; p in s.blocks && s.blocks[p] == Block(t, true)
  {
    var p, r := s.lists[t][0], Rotated(s, t);
    assert p in s.lists[t];
    assert forall x :: x in r.blocks ==> End(r, x) == End(s, x) && Follows(s, x);
    forall x, y | x in r.blocks && y in r.blocks ensures Apart(r, x, y) {
      assert Apart(s, x, y);
    }
    hide Tiled;
    forall x ensures x in r.lists[t] <==> x in s.lists[t] {
      InTail(s.lists[t], x);
    }
  }

  /**
   * Freeing at once what a split produced re-merges every sibling: the result is what the merge
   * loop makes of the block before the split, which can only join further right neighbours.
   */
  lemma {:induction false} FreeUndoesSplit(s: State, t: nat, small: nat)
    requires Valid(s) && small < t < ORDERS && s.lists[t] != []
    requires forall j :: small <= j < t ==> s.lists[j] == []
    ensures var p, r := s.lists[t][0], Split(s, t, small);
      && Valid(r) && p in r.blocks && !r.blocks[p].free
      && Valid(Rotated(s, t)) && p in s.blocks && s.blocks[p].free
      && Free(r, p) == Merge(Rotated(s, t), p)
    decreases t
  {
    hide Tiled, Listed, Pow2, Merge, MergeOne;
    ListedAt(s, t, 0);
    var p := s.lists[t][0];
    SplitValid(s, t, small);
    RotatedValid(s, t);
    HalveValid(s, t);
    HalvedLists(s, t);
    var h := Halve(s, t);
    RemergeOne(s, t);
    if t - 1 > small {
      FreeUndoesSplit(h, t - 1, small);
    } else {
      TakeReleased(h, small);
    }
  }

  /** Taking the first of a list and releasing it at once only moves it to the end. */
  lemma TakeReleased(s: State, k: nat)
    requires Valid(s) && k < ORDERS && s.lists[k] != []
    ensures Valid(Rotated(s, k)) && Valid(Take(s, k, 0))
    ensures var p := s.lists[k][0];
      p in s.blocks && !Take(s, k, 0).blocks[p].free && s.blocks[p].free
      && Release(Take(s, k, 0), p) == Rotated(s, k)
  {
    hide Tiled, Listed;
    ListedAt(s, k, 0);
    RotatedValid(s, k);
    TakeValid(s, k, 0);
    var p, l := s.lists[k][0], s.lists[k];
    assert Without(l, 0) == l[1..];
    var t := Take(s, k, 0);
    assert t.blocks[p := Block(k, true)] == s.blocks;
    assert t.lists[k := t.lists[k] + [p]] == s.lists[k := l[1..] + [p]];
  }

  lemma MergeUnfold(s: State, p: nat)
    requires Valid(s) && p in s.blocks && s.blocks[p].free && Mergeable(s, p)
    ensures s.blocks[p].order < ORDERS && Valid(MergeOne(s, p)) && p in MergeOne(s, p).blocks && MergeOne(s, p).blocks[p].free
    ensures Merge(s, p) == Merge(MergeOne(s, p), p)
  {
    hide Tiled, Listed, Pow2;
    MergeOneValid(s, p);
  }

  /** After one halving the two halves merge back into the block. */
  lemma RemergeOne(s: State, t: nat)
    requires Valid(s) && 0 < t < ORDERS && s.lists[t] != [] && s.lists[t - 1] == []
    ensures var p, h := s.lists[t][0], Halve(s, t);
      && h.lists[t - 1] != [] && h.lists[t - 1][0] == p
      && Valid(Rotated(h, t - 1)) && p in h.blocks && h.blocks[p].free
      && Valid(Rotated(s, t)) && p in s.blocks && s.blocks[p].free
      && Merge(Rotated(h, t - 1), p) == Merge(Rotated(s, t), p)
  {
    hide Tiled, Listed, Pow2, Merge, MergeOne;
    ListedAt(s, t, 0);
    HalveValid(s, t);
    HalvedLists(s, t);
    RotatedValid(s, t);
    RotatedValid(Halve(s, t), t - 1);
    Rejoined(s, t);
    MergeUnfold(Rotated(Halve(s, t), t - 1), s.lists[t][0]);
  }

  lemma Rejoined(s: State, t: nat)
    requires Valid(s) && 0 < t < ORDERS && s.lists[t] != [] && s.lists[t - 1] == []
    requires Halve(s, t).lists[t - 1] != [] && Valid(Rotated(Halve(s, t), t - 1))
    requires s.lists[t][0] in s.blocks && s.blocks[s.lists[t][0]] == Block(t, true)
    ensures var p, r := s.lists[t][0], Rotated(Halve(s, t), t - 1);
      p in r.blocks && r.blocks[p].free && Mergeable(r, p) && MergeOne(r, p) == Rotated(s, t)
  {
    hide Tiled, Pow2, Listed, MergeOne;
    ListedAt(s, t, 0);
    var p: nat, q: nat := s.lists[t][0], s.lists[t][0] + Pow2(t - 1);
    NotInside2(s, p, t);
    HalvedLists(s, t);
    var r := Rotated(Halve(s, t), t - 1);
    assert r.lists[t - 1] == [q, p];
    JoinPair(r, t - 1, p, q);
    assert (r.blocks - {q})[p := Block(t, true)] == s.blocks;
    assert r.lists[t - 1 := []][t := r.lists[t] + [p]] == Rotated(s, t).lists;
  }

  /** Merging when the order's list holds just the pair. */
  lemma JoinPair(r: State, o: nat, p: nat, q: nat)
    requires Listed(r) && o < TOP && r.lists[o] == [q, p] && p in r.blocks && q in r.blocks && p != q
    requires r.blocks[p] == Block(o, true) && r.blocks[q] == Block(o, true) && End(r, p) == q
    ensures Mergeable(r, p)
    ensures MergeOne(r, p) == State((r.blocks - {q})[p := Block(o + 1, true)], r.lists[o := []][o + 1 := r.lists[o + 1] + [p]])
  {
    hide Listed, Pow2;
    assert IndexOf([q, p], q) == 0 && IndexOf([p], p) == 0;
    assert Without([q, p], 0) == [p] && Without([p], 0) == [];
  }

  lemma NotInside2(s: State, p: nat, t: nat)
    requires Valid(s) && p in s.blocks && s.blocks[p].order == t && t > 0
    ensures p + Pow2(t - 1) !in s.blocks && Pow2(t) == 2 * Pow2(t - 1)
  {
    PowStep(t);
    NotInside(s, p, p + Pow2(t - 1));
  }

  // ---- Runs -------------------------------------------------------------------------------

  datatype Op = Alloc(order: nat) | Return(page: nat)

  /** A panic, which stops the kernel, leaves the state alone. */
  function Step(s: State, op: Op): State
    requires Valid(s)
  {
    match op
    case Alloc(order) =>
      var a := Allocate(s, order);
      if a.Got? then a.s else s
    case Return(p) => if p in s.blocks && !s.blocks[p].free then Free(s, p) else s
  }

  lemma StepValid(s: State, op: Op)
    requires Valid(s)
    ensures Valid(Step(s, op))
  {
    match op
    case Alloc(order) => AllocateSpec(s, order);
    case Return(p) => if p in s.blocks && !s.blocks[p].free { FreeValid(s, p); }
  }

  function Run(s: State, ops: seq<Op>): State
    requires Valid(s)
    decreases |ops|
  {
    if ops == [] then s else StepValid(s, ops[0]); Run(Step(s, ops[0]), ops[1..])
  }

  /** From boot on, every run keeps the tiling, the lists, and the amount of memory. */
  lemma {:induction false} RunValid(s: State, ops: seq<Op>)
    requires Valid(s)
    ensures var r := Run(s, ops);
      Valid(r) && Counted(r.lists, ORDERS) + Pages(r, 0, false) == NPAGE
    decreases |ops|
  {
    hide Tiled, Listed;
    if ops == [] {
      Conservation(s);
    } else {
      StepValid(s, ops[0]);
      RunValid(Step(s, ops[0]), ops[1..]);
    }
  }

  lemma {:induction false} MergeKeepsUsed(s: State, p: nat, u: nat)
    requires Valid(s) && p in s.blocks && s.blocks[p].free && u in s.blocks && !s.blocks[u].free
    ensures u in Merge(s, p).blocks && Merge(s, p).blocks[u] == s.blocks[u]
    decreases TOP - s.blocks[p].order
  {
    hide Tiled, Listed, Pow2;
    if Mergeable(s, p) {
      MergeOneValid(s, p);
      MergeKeepsUsed(MergeOne(s, p), p, u);
    }
  }

  lemma AllocateKeepsUsed(s: State, order: nat, u: nat)
    requires Valid(s) && u in s.blocks && !s.blocks[u].free && Allocate(s, order).Got?
    ensures var r := Allocate(s, order).s; u in r.blocks && r.blocks[u] == s.blocks[u]
  {
    hide Tiled, Pow2, Split;
    var t := FirstFit(s.lists, order);
    var p := s.lists[t][0];
    assert p in s.lists[t];
    if t > order { SplitKeepsUsed(s, t, order, u); }
  }

  /** A region in use stays where it is, and as large as it is, until it is given back. */
  lemma StepKeepsUsed(s: State, op: Op, u: nat)
    requires Valid(s) && u in s.blocks && !s.blocks[u].free && op != Return(u)
    ensures u in Step(s, op).blocks && Step(s, op).blocks[u] == s.blocks[u]
  {
    hide Tiled, Pow2, Merge, Allocate;
    match op
    case Alloc(order) => if Allocate(s, order).Got? { AllocateKeepsUsed(s, order, u); }
    case Return(p) =>
      if p in s.blocks && !s.blocks[p].free {
        ReleaseValid(s, p);
        MergeKeepsUsed(Release(s, p), p, u);
      }
  }

  /** Regions in use at the same time share no page and lie inside the managed memory. */
  lemma RegionsDisjoint(s: State, p: nat, q: nat)
    requires Valid(s) && p in s.blocks && q in s.blocks && p != q
    ensures End(s, p) <= q || End(s, q) <= p
    ensures End(s, p) <= NPAGE
  {
    TiledAt(s, p, q);
  }
}
