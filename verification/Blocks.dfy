/** The buddy allocator's state and steps, apart from its page array and pointers (buddy.c). */
module Blocks {
  import opened Lists

  const ORDERS := 14            // BUDDY_MAX_ORDER
  const TOP := 13               // the largest order
  const NPAGE := 0x4000         // 64 MB of 4 KB pages
  const PAGE := 0x1000

  function Pow2(k: nat): (r: nat)
    ensures r >= 1
  {
    if k == 0 then 1 else 2 * Pow2(k - 1)
  }

  lemma {:induction false} Pow2Mono(a: nat, b: nat)
    requires a <= b
    ensures Pow2(a) <= Pow2(b)
    ensures a < b ==> 2 * Pow2(a) <= Pow2(b)
  {
    if a < b { Pow2Mono(a, b - 1); }
  }

  lemma Pow2Top()
    ensures Pow2(TOP) == 0x2000
  {
    assert Pow2(4) == 16 && Pow2(8) == 256 && Pow2(12) == 4096;
  }

  /** What matters of a page flagged PG_HEAD. */
  datatype Block = Block(order: nat, free: bool)

  /** The blocks by first page, and the free list of each order from its head on. */
  datatype State = State(blocks: map<nat, Block>, lists: seq<seq<nat>>)

  function End(s: State, p: nat): nat
    requires p in s.blocks
  {
    p + Pow2(s.blocks[p].order)
  }

  /** A block lies inside the pages and another block, or nothing, follows it. */
  ghost predicate Follows(s: State, p: nat)
    requires p in s.blocks
  {
    s.blocks[p].order <= TOP && End(s, p) <= NPAGE && (End(s, p) == NPAGE || End(s, p) in s.blocks)
  }

  ghost predicate Apart(s: State, p: nat, q: nat)
    requires p in s.blocks && q in s.blocks
  {
    p < q ==> End(s, p) <= q
  }

  /** The blocks tile the pages: no gap, no overlap. */
  ghost predicate Tiled(s: State) {
    && 0 in s.blocks
    && (forall p {:trigger s.blocks[p]} :: p in s.blocks ==> Follows(s, p))
    && (forall p, q {:trigger s.blocks[p], s.blocks[q]} {:trigger Apart(s, p, q)} :: p in s.blocks && q in s.blocks ==> Apart(s, p, q))
  }

  /** Each order's list holds exactly the free blocks of that order, once. */
  ghost predicate Listed(s: State) {
    && |s.lists| == ORDERS
    && (forall k :: 0 <= k < ORDERS ==> Distinct(s.lists[k]))
    && (forall k, p :: 0 <= k < ORDERS ==> (p in s.lists[k] <==> p in s.blocks && s.blocks[p] == Block(k, true)))
  }

  ghost predicate Valid(s: State) { Tiled(s) && Listed(s) }

  // ---- Steps ------------------------------------------------------------------------------

  // buddy_init: two free blocks of the top order
  function Initial(): State {
    State(map[0 := Block(TOP, true), 0x2000 := Block(TOP, true)],
      seq(ORDERS, k => if k == TOP then [0, 0x2000] else []))
  }

  /** One turn of buddy_split: the first block of order `t` becomes two of order `t - 1`. */
  function Halve(s: State, t: nat): State
    requires 0 < t < |s.lists| && s.lists[t] != []
  {
    var p: nat := s.lists[t][0];
    var q: nat := p + Pow2(t - 1);
    State(s.blocks[p := Block(t - 1, true)][q := Block(t - 1, true)],
      s.lists[t := s.lists[t][1..]][t - 1 := s.lists[t - 1] + [p, q]])
  }

  /** Taking block `p`, at place `i` of its list, out of circulation. */
  function Take(s: State, k: nat, i: nat): State
    requires k < |s.lists| && i < |s.lists[k]|
  {
    State(s.blocks[s.lists[k][i] := Block(k, false)], s.lists[k := Without(s.lists[k], i)])
  }

  /**
   * buddy_split down to `small`.  The block handed out is the first half made last; that it is
   * also first in its list takes all lists below `t` to have been empty, as buddy_allocate ensures.
   */
  function Split(s: State, t: nat, small: nat): State
    requires small < t < |s.lists| && s.lists[t] != []
    decreases t
  {
    var h := Halve(s, t);
    if t - 1 > small then Split(h, t - 1, small) else Take(h, small, |h.lists[small]| - 2)
  }

  /** The least order from `k` on with a free block; ORDERS if there is none. */
  function FirstFit(lists: seq<seq<nat>>, k: nat): (t: nat)
    requires |lists| == ORDERS && k <= ORDERS
    ensures k <= t <= ORDERS && (t < ORDERS ==> lists[t] != [])
    ensures forall j :: k <= j < t ==> lists[j] == []
    decreases ORDERS - k
  {
    if k == ORDERS || lists[k] != [] then k else FirstFit(lists, k + 1)
  }

  datatype Allocation = OutOfMemory | Got(page: nat, s: State)

  // buddy_allocate, by order
  function Allocate(s: State, order: nat): Allocation
    requires |s.lists| == ORDERS
  {
    if order >= ORDERS then OutOfMemory else
      var t := FirstFit(s.lists, order);
      if t == ORDERS then OutOfMemory
      else if t == order then Got(s.lists[order][0], Take(s, order, 0))
      else Got(s.lists[t][0], Split(s, t, order))
  }

  /** An allocation takes the first block in the list of the least order that has one. */
  lemma AllocatesFirst(s: State, order: nat, t: nat)
    requires |s.lists| == ORDERS && order <= t < ORDERS && s.lists[t] != [] && forall j :: order <= j < t ==> s.lists[j] == []
    ensures Allocate(s, order).Got? && Allocate(s, order).page == s.lists[t][0]
  {
    var u := FirstFit(s.lists, order);
    assert u == t;
  }

  /** Place of `x` in a list that holds it. */
  function IndexOf(s: seq<nat>, x: nat): (i: nat)
    requires x in s
    ensures i < |s| && s[i] == x
  {
    if s[0] == x then 0 else 1 + IndexOf(s[1..], x)
  }

  function Drop(s: seq<nat>, x: nat): seq<nat>
    requires x in s
  {
    Without(s, IndexOf(s, x))
  }

  /** The merge test of buddy_free_page, on the right neighbour only. */
  predicate Mergeable(s: State, p: nat)
    requires p in s.blocks
  {
    var o, q := s.blocks[p].order, End(s, p);
    o < TOP && q in s.blocks && s.blocks[q] == Block(o, true)
  }

  /** One merge: the neighbour disappears into `p`, which moves to the end of the next list. */
  function MergeOne(s: State, p: nat): State
    requires p in s.blocks && Mergeable(s, p) && Listed(s) && s.blocks[p].free
  {
    var o, q := s.blocks[p].order, End(s, p);
    var rest := Drop(s.lists[o], q);
    DropOther(s.lists[o], q, p);
    State((s.blocks - {q})[p := Block(o + 1, true)], s.lists[o := Drop(rest, p)][o + 1 := s.lists[o + 1] + [p]])
  }

  lemma DropOther(s: seq<nat>, x: nat, y: nat)
    requires x in s && y in s && x != y
    ensures y in Drop(s, x)
  {
    var i, j := IndexOf(s, x), IndexOf(s, y);
    assert Without(s, i)[if j < i then j else j - 1] == y;
  }

  /** buddy_free_page before its loop: `p` joins the list of its order. */
  function Release(s: State, p: nat): State
    requires p in s.blocks && s.blocks[p].order < |s.lists|
  {
    var o := s.blocks[p].order;
    State(s.blocks[p := Block(o, true)], s.lists[o := s.lists[o] + [p]])
  }

  /** The loop of buddy_free_page. */
  function Merge(s: State, p: nat): State
    requires Valid(s) && p in s.blocks && s.blocks[p].free
    decreases TOP - s.blocks[p].order
  {
    if Mergeable(s, p) then MergeOneValid(s, p); Merge(MergeOne(s, p), p) else s
  }

  function Free(s: State, p: nat): State
    requires Valid(s) && p in s.blocks && !s.blocks[p].free
  {
    ReleaseValid(s, p);
    Merge(Release(s, p), p)
  }

  // ---- Every step keeps the tiling and the lists ------------------------------------------

  lemma TiledAt(s: State, p: nat, q: nat)
    requires Tiled(s) && p in s.blocks && q in s.blocks
    ensures Follows(s, p) && Apart(s, p, q) && Apart(s, q, p)
  {
  }

  lemma MakeTiled(s: State)
    requires 0 in s.blocks && forall p :: p in s.blocks ==> Follows(s, p)
    requires forall p, q :: p in s.blocks && q in s.blocks ==> Apart(s, p, q)
    ensures Tiled(s)
  {
  }

  lemma PowStep(t: nat)
    requires t > 0
    ensures Pow2(t) == 2 * Pow2(t - 1)
  {
  }

  lemma ListedAt(s: State, k: nat, p: nat)
    requires Listed(s) && k < ORDERS
    ensures |s.lists| == ORDERS && Distinct(s.lists[k])
    ensures p in s.lists[k] <==> p in s.blocks && s.blocks[p] == Block(k, true)
  {
  }

  lemma MakeListed(s: State)
    requires |s.lists| == ORDERS
    requires forall k :: 0 <= k < ORDERS ==> Distinct(s.lists[k])
    requires forall k, p :: 0 <= k < ORDERS ==> (p in s.lists[k] <==> p in s.blocks && s.blocks[p] == Block(k, true))
    ensures Listed(s)
  {
  }

  lemma InitialValid()
    ensures Valid(Initial())
  {
    hide Tiled, Listed, Pow2;
    InitialTiled();
    MakeListed(Initial());
  }

  lemma InitialTiled()
    ensures Tiled(Initial())
  {
    hide Pow2;
    Pow2Top();
    MakeTiled(Initial());
  }

  /** On a tiling the page after a block, if there is one, starts a block: no head test can fail. */
  lemma NeighbourIsHead(s: State, p: nat)
    requires Tiled(s) && p in s.blocks && End(s, p) < NPAGE
    ensures End(s, p) in s.blocks
  {
    assert Follows(s, p);
  }

  /** No block starts inside another. */
  lemma NotInside(s: State, p: nat, x: nat)
    requires Tiled(s) && p in s.blocks && p < x < End(s, p)
    ensures x !in s.blocks
  {
    assert x in s.blocks ==> Apart(s, p, x);
  }

  lemma HalveValid(s: State, t: nat)
    requires Valid(s) && 0 < t < ORDERS && s.lists[t] != []
    ensures Valid(Halve(s, t))
  {
    hide Tiled, Listed, Pow2;
    ListedAt(s, t, 0);
    var p: nat := s.lists[t][0];
    ListedAt(s, t, p);
    TiledAt(s, p, p);
    PowStep(t);
    NotInside(s, p, p + Pow2(t - 1));
    HalveTiled(s, p, Halve(s, t).lists);
    HalveListed(s, t);
  }

  lemma HalveListed(s: State, t: nat)
    requires Listed(s) && 0 < t < ORDERS && s.lists[t] != []
    requires s.lists[t][0] + Pow2(t - 1) !in s.blocks
    ensures Listed(Halve(s, t))
  {
    hide Listed, Pow2;
    ListedAt(s, t, 0);
    var p: nat, q: nat := s.lists[t][0], s.lists[t][0] + Pow2(t - 1);
    var h := Halve(s, t);
    forall k | 0 <= k < ORDERS
      ensures Distinct(h.lists[k])
    {
      ListedAt(s, k, p);
      ListedAt(s, k, q);
      ListedAt(s, t, p);
    }
    forall k, x | 0 <= k < ORDERS
      ensures x in h.lists[k] <==> x in h.blocks && h.blocks[x] == Block(k, true)
    {
      ListedAt(s, t, p);
      ListedAt(s, k, x);
      ListedAt(s, k, q);
      InTail(s.lists[t], x);
    }
    MakeListed(h);
  }

  lemma InTail(s: seq<nat>, x: nat)
    requires s != [] && Distinct(s)
    ensures x in s[1..] <==> x in s && x != s[0]
  {
    if x in s[1..] {
      var i :| 0 <= i < |s[1..]| && s[1..][i] == x;
      assert s[i + 1] == x;
    }
    if x in s && x != s[0] {
      var i :| 0 <= i < |s| && s[i] == x;
      assert s[1..][i - 1] == x;
    }
  }

  function Halved(s: State, p: nat, lists: seq<seq<nat>>): State
    requires p in s.blocks && s.blocks[p].order > 0
  {
    var t := s.blocks[p].order - 1;
    State(s.blocks[p := Block(t, true)][p + Pow2(t) := Block(t, true)], lists)
  }

  /** Halving a block splits its tile in two. */
  lemma HalveTiled(s: State, p: nat, lists: seq<seq<nat>>)
    requires Tiled(s) && p in s.blocks && s.blocks[p].order > 0
    ensures Tiled(Halved(s, p, lists))
  {
    hide Follows, Apart, Pow2;
    var h := Halved(s, p, lists);
    forall x | x in h.blocks ensures Follows(h, x) {
      HalveFollows(s, p, lists, x);
    }
    forall x, y | x in h.blocks && y in h.blocks ensures Apart(h, x, y) {
      HalveApart(s, p, lists, x, y);
    }
    MakeTiled(h);
  }

  lemma HalveFollows(s: State, p: nat, lists: seq<seq<nat>>, x: nat)
    requires Tiled(s) && p in s.blocks && s.blocks[p].order > 0 && x in Halved(s, p, lists).blocks
    ensures Follows(Halved(s, p, lists), x)
  {
    hide Tiled, Pow2;
    TiledAt(s, p, p);
    PowStep(s.blocks[p].order);
    if x != p && x != p + Pow2(s.blocks[p].order - 1) { TiledAt(s, x, p); }
  }

  lemma HalveApart(s: State, p: nat, lists: seq<seq<nat>>, x: nat, y: nat)
    requires Tiled(s) && p in s.blocks && s.blocks[p].order > 0
    requires x in Halved(s, p, lists).blocks && y in Halved(s, p, lists).blocks
    ensures Apart(Halved(s, p, lists), x, y)
  {
    hide Tiled, Pow2;
    PowStep(s.blocks[p].order);
    var q: nat := p + Pow2(s.blocks[p].order - 1);
    var x': nat, y': nat := if x == q then p else x, if y == q then p else y;
    TiledAt(s, x', y');
  }

  lemma InWithout(s: seq<nat>, i: nat, x: nat)
    requires i < |s| && Distinct(s)
    ensures Distinct(Without(s, i)) && (x in Without(s, i) <==> x in s && x != s[i])
  {
    var r := Without(s, i);
    if x in s && x != s[i] {
      var j :| 0 <= j < |s| && s[j] == x;
      assert r[if j < i then j else j - 1] == x;
    }
    if x in r {
      var j :| 0 <= j < |r| && r[j] == x;
      assert s[if j < i then j else j + 1] == x;
    }
  }

  /** Marking a block free or taken moves nothing. */
  lemma MarkTiled(s: State, p: nat, free: bool, lists: seq<seq<nat>>)
    requires Tiled(s) && p in s.blocks
    ensures Tiled(State(s.blocks[p := Block(s.blocks[p].order, free)], lists))
  {
    var r := State(s.blocks[p := Block(s.blocks[p].order, free)], lists);
    forall x | x in r.blocks ensures Follows(r, x) {
      assert Follows(s, x) && End(r, x) == End(s, x);
    }
    forall x, y | x in r.blocks && y in r.blocks ensures Apart(r, x, y) {
      assert Apart(s, x, y) && End(r, x) == End(s, x);
    }
  }

  lemma TakeValid(s: State, k: nat, i: nat)
    requires Valid(s) && k < ORDERS && i < |s.lists[k]|
    ensures Valid(Take(s, k, i))
  {
    var p: nat := s.lists[k][i];
    assert p in s.lists[k] && s.blocks[p] == Block(k, true);
    var r := Take(s, k, i);
    MarkTiled(s, p, false, r.lists);
    hide Tiled;
    InWithout(s.lists[k], i, p);
    forall j, x | 0 <= j < ORDERS
      ensures x in r.lists[j] <==> x in r.blocks && r.blocks[x] == Block(j, true)
    {
      InWithout(s.lists[k], i, x);
    }
  }

  lemma ReleaseValid(s: State, p: nat)
    requires Valid(s) && p in s.blocks && !s.blocks[p].free
    ensures s.blocks[p].order < ORDERS && Valid(Release(s, p))
  {
    assert Follows(s, p);
    var o, r := s.blocks[p].order, Release(s, p);
    MarkTiled(s, p, true, r.lists);
    hide Tiled;
    assert p !in s.lists[o];
  }

  lemma MergeOneValid(s: State, p: nat)
    requires Valid(s) && p in s.blocks && s.blocks[p].free && Mergeable(s, p)
    ensures s.blocks[p].order < ORDERS && Valid(MergeOne(s, p)) && p in MergeOne(s, p).blocks
    ensures MergeOne(s, p).blocks[p] == Block(s.blocks[p].order + 1, true)
  {
    hide Tiled, Listed, Pow2, Drop;
    TiledAt(s, p, p);
    var o, q, r := s.blocks[p].order, End(s, p), MergeOne(s, p);
    MergeTiled(s, p, r.lists);
    ListedAt(s, o, p);
    ListedAt(s, o, q);
    ListedAt(s, o + 1, p);
    DropTwo(s.lists[o], q, p, p);
    forall k | 0 <= k < ORDERS
      ensures Distinct(r.lists[k])
    {
      ListedAt(s, k, p);
    }
    forall k, x | 0 <= k < ORDERS
      ensures x in r.lists[k] <==> x in r.blocks && r.blocks[x] == Block(k, true)
    {
      ListedAt(s, k, x);
      DropTwo(s.lists[o], q, p, x);
    }
    MakeListed(r);
  }

  lemma DropTwo(l: seq<nat>, q: nat, p: nat, x: nat)
    requires Distinct(l) && p in l && q in l && p != q
    ensures p in Drop(l, q) && Distinct(Drop(Drop(l, q), p))
    ensures x in Drop(Drop(l, q), p) <==> x in l && x != q && x != p
  {
    DropOther(l, q, p);
    InWithout(l, IndexOf(l, q), x);
    InWithout(Drop(l, q), IndexOf(Drop(l, q), p), x);
  }

  function Merged(s: State, p: nat, lists: seq<seq<nat>>): State
    requires p in s.blocks
  {
    State((s.blocks - {End(s, p)})[p := Block(s.blocks[p].order + 1, true)], lists)
  }

  /** Merging a block with its right neighbour joins their tiles. */
  lemma MergeTiled(s: State, p: nat, lists: seq<seq<nat>>)
    requires Tiled(s) && p in s.blocks && Mergeable(s, p)
    ensures Tiled(Merged(s, p, lists))
  {
    hide Follows, Apart, Pow2;
    var r := Merged(s, p, lists);
    ZeroStays(s, p);
    forall x | x in r.blocks ensures Follows(r, x) {
      MergeFollows(s, p, lists, x);
    }
    forall x, y | x in r.blocks && y in r.blocks ensures Apart(r, x, y) {
      MergeApart(s, p, lists, x, y);
    }
    MakeTiled(r);
  }

  lemma ZeroStays(s: State, p: nat)
    requires Tiled(s) && p in s.blocks
    ensures End(s, p) != 0 && 0 in s.blocks
  {
  }

  lemma MergeFollows(s: State, p: nat, lists: seq<seq<nat>>, x: nat)
    requires Tiled(s) && p in s.blocks && Mergeable(s, p) && x in Merged(s, p, lists).blocks
    ensures Follows(Merged(s, p, lists), x)
  {
    hide Tiled, Pow2;
    var q := End(s, p);
    TiledAt(s, p, q);
    TiledAt(s, q, p);
    TiledAt(s, x, p);
    TiledAt(s, x, q);
    PowStep(s.blocks[p].order + 1);
  }

  lemma MergeApart(s: State, p: nat, lists: seq<seq<nat>>, x: nat, y: nat)
    requires Tiled(s) && p in s.blocks && Mergeable(s, p)
    requires x in Merged(s, p, lists).blocks && y in Merged(s, p, lists).blocks
    ensures Apart(Merged(s, p, lists), x, y)
  {
    hide Tiled, Pow2;
    TiledAt(s, x, y);
    TiledAt(s, p, y);
    TiledAt(s, End(s, p), y);
    PowStep(s.blocks[p].order + 1);
  }

  // ---- Whole operations -------------------------------------------------------------------

  /** Splitting keeps everything in order, and hands out a block of the order asked for. */
  lemma {:induction false} SplitValid(s: State, t: nat, small: nat)
    requires Valid(s) && small < t < ORDERS && s.lists[t] != []
    requires forall j :: small <= j < t ==> s.lists[j] == []
    ensures var p, r := s.lists[t][0], Split(s, t, small);
      Valid(r) && p in r.blocks && r.blocks[p] == Block(small, false)
    decreases t
  {
    hide Tiled, Listed;
    ListedAt(s, t, 0);
    HalveValid(s, t);
    var h := Halve(s, t);
    HalvedLists(s, t);
    if t - 1 > small {
      SplitValid(h, t - 1, small);
    } else {
      TakeValid(h, small, 0);
    }
  }

  lemma HalvedLists(s: State, t: nat)
    requires Valid(s) && 0 < t < ORDERS && s.lists[t] != [] && s.lists[t - 1] == []
    ensures var h := Halve(s, t);
      h.lists[t - 1] == [s.lists[t][0], s.lists[t][0] + Pow2(t - 1)] && h.lists[t] == s.lists[t][1..]
  {
  }

  /** After a split each order from `small` up to `t` has one free block, the right half made there, and
      the list split from lacks its first block. */
  lemma {:induction false} SplitLists(s: State, t: nat, small: nat)
    requires Valid(s) && small < t < ORDERS && s.lists[t] != []
    requires forall j :: small <= j < t ==> s.lists[j] == []
    ensures var p, r := s.lists[t][0], Split(s, t, small);
      && |r.lists| == ORDERS && r.lists[t] == s.lists[t][1..] && (forall j :: small <= j < t ==> r.lists[j] == [p + Pow2(j)])
      && forall j :: 0 <= j < ORDERS && !(small <= j <= t) ==> r.lists[j] == s.lists[j]
    decreases t
  {
    hide Tiled, Listed, Pow2, Halve;
    ListedAt(s, t, 0);
    HalveValid(s, t);
    var h := Halve(s, t);
    HalvedLists(s, t);
    HalvedOthers(s, t);
    if t - 1 > small {
      SplitLists(h, t - 1, small);
    } else {
      TakenFirst(h, small);
    }
  }

  lemma HalvedOthers(s: State, t: nat)
    requires 0 < t < |s.lists| && s.lists[t] != []
    ensures |Halve(s, t).lists| == |s.lists|
    ensures forall j :: 0 <= j < |s.lists| && j != t && j != t - 1 ==> Halve(s, t).lists[j] == s.lists[j]
  {
    hide Pow2;
  }

  lemma TakenFirst(s: State, k: nat)
    requires k < |s.lists| && s.lists[k] != []
    ensures Take(s, k, 0).lists == s.lists[k := s.lists[k][1..]]
  {
    assert Without(s.lists[k], 0) == s.lists[k][1..];
  }

  /** buddy_allocate: what it hands out, and exactly when it cannot. */
  lemma AllocateSpec(s: State, order: nat)
    requires Valid(s)
    ensures match Allocate(s, order)
      case Got(p, r) => Valid(r) && p in s.blocks && s.blocks[p].free && p in r.blocks && r.blocks[p] == Block(order, false)
      case OutOfMemory => forall p :: p in s.blocks && s.blocks[p].free ==> s.blocks[p].order < order
    ensures Allocate(s, order).OutOfMemory? <==> forall p :: p in s.blocks && s.blocks[p].free ==> s.blocks[p].order < order
  {
    if order < ORDERS {
      var t := FirstFit(s.lists, order);
      if t < ORDERS {
        var p := s.lists[t][0];
        assert p in s.lists[t] && s.blocks[p] == Block(t, true);
        if t == order { TakeValid(s, t, 0); } else { SplitValid(s, t, order); }
      } else {
        forall p | p in s.blocks && s.blocks[p].free
          ensures s.blocks[p].order < order
        {
          TiledAt(s, p, p);
          assert p in s.lists[s.blocks[p].order];
        }
      }
    } else {
      forall p | p in s.blocks ensures s.blocks[p].order < order { TiledAt(s, p, p); }
    }
  }

  /** Blocks in use keep their place and order while others are allocated. */
  lemma {:induction false} SplitKeepsUsed(s: State, t: nat, small: nat, u: nat)
    requires Valid(s) && small < t < ORDERS && s.lists[t] != []
    requires forall j :: small <= j < t ==> s.lists[j] == []
    requires u in s.blocks && !s.blocks[u].free
    ensures u in Split(s, t, small).blocks && Split(s, t, small).blocks[u] == s.blocks[u]
    decreases t
  {
    hide Tiled, Listed, Pow2;
    ListedAt(s, t, u);
    var p := s.lists[t][0];
    ListedAt(s, t, p);
    TiledAt(s, p, u);
    PowStep(t);
    HalveValid(s, t);
    HalvedLists(s, t);
    if t - 1 > small { SplitKeepsUsed(Halve(s, t), t - 1, small, u); }
  }

  /** Merging ends with a tiling in which `p` is free and cannot be merged further. */
  lemma {:induction false} MergeValid(s: State, p: nat)
    requires Valid(s) && p in s.blocks && s.blocks[p].free
    ensures var r := Merge(s, p);
      Valid(r) && p in r.blocks && r.blocks[p].free && r.blocks[p].order >= s.blocks[p].order && !Mergeable(r, p)
    decreases TOP - s.blocks[p].order
  {
    if Mergeable(s, p) {
      MergeOneValid(s, p);
      MergeValid(MergeOne(s, p), p);
    }
  }

  /** The last of its order to be handed out. */
  predicate IsLast(s: State, p: nat) {
    p in s.blocks && s.blocks[p].order < |s.lists| && var l := s.lists[s.blocks[p].order]; l != [] && l[|l| - 1] == p
  }

  /** A block given back, merged or not, is the last of its order to be handed out again. */
  lemma FreedLast(s: State, p: nat)
    requires Valid(s) && p in s.blocks && !s.blocks[p].free
    ensures IsLast(Free(s, p), p)
  {
    hide Tiled, Listed, Pow2;
    ReleaseValid(s, p);
    ListedAt(s, 0, p);
    TiledAt(s, p, p);
    MergedLast(Release(s, p), p);
  }

  lemma {:induction false} MergedLast(s: State, p: nat)
    requires Valid(s) && p in s.blocks && s.blocks[p].free && IsLast(s, p)
    ensures IsLast(Merge(s, p), p)
    decreases TOP - s.blocks[p].order
  {
    hide Tiled, Listed, Pow2, IsLast, Mergeable, MergeOne;
    if Mergeable(s, p) {
      MergeOneValid(s, p);
      MergedOnce(s, p);
      MergedLast(MergeOne(s, p), p);
    }
  }

  lemma MergedOnce(s: State, p: nat)
    requires Valid(s) && p in s.blocks && s.blocks[p].free && Mergeable(s, p)
    ensures IsLast(MergeOne(s, p), p)
  {
    hide Tiled, Pow2, Drop;
    DropOther(s.lists[s.blocks[p].order], End(s, p), p);
  }

  lemma FreeValid(s: State, p: nat)
    requires Valid(s) && p in s.blocks && !s.blocks[p].free
    ensures Valid(Free(s, p))
  {
    ReleaseValid(s, p);
    MergeValid(Release(s, p), p);
  }
}
