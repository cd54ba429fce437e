/** The page array, the intrusive free lists and the operations over them (buddy.c, pmm.c). */
module Buddy {
  import opened Arithmetic
  import opened Lists
  import opened Blocks
  import opened Accounting

  const HEAD := 1               // PG_HEAD
  const TAIL := 2               // PG_TAIL

  /** struct Page without its links; pages that never were a head have flag 0. */
  datatype Page = Page(order: nat, free: bool, flag: nat)

  // ---- The abstract state of the arrays ---------------------------------------------------

  function BlocksOf(ps: seq<Page>): (m: map<nat, Block>) {
    map i: nat | i < |ps| && ps[i].flag == HEAD :: Block(ps[i].order, ps[i].free)
  }

  /** Writing a head page's entry updates its block; clearing the flag removes it. */
  lemma BlocksOfUpdate(ps: seq<Page>, i: nat, p: Page)
    requires i < |ps|
    ensures p.flag == HEAD ==> BlocksOf(ps[i := p]) == BlocksOf(ps)[i := Block(p.order, p.free)]
    ensures p.flag != HEAD ==> BlocksOf(ps[i := p]) == BlocksOf(ps) - {i}
  {
  }

  /** All the rings at once: page `i` is node `i`, the head of order `k` is node `NPAGE + k`. */
  ghost predicate Linked(nx: seq<nat>, pv: seq<nat>, lists: seq<seq<nat>>) {
    && |lists| == ORDERS && |nx| == |pv| == NPAGE + ORDERS
    && (forall k :: 0 <= k < ORDERS ==> Ring(nx, pv, NPAGE + k, lists[k]))
    && (forall k, x :: 0 <= k < ORDERS && x in lists[k] ==> x < NPAGE)
    && (forall j, k, x :: 0 <= j < k < ORDERS && x in lists[j] ==> x !in lists[k])
  }

  ghost function NoBlocks(): seq<seq<nat>> {
    seq(ORDERS, _ => [])
  }

  /** A change confined to one ring and one node leaves the other rings linked. */
  lemma LinkedAfter(nx: seq<nat>, pv: seq<nat>, lists: seq<seq<nat>>, k: nat, node: nat, nx': seq<nat>, pv': seq<nat>, l: seq<nat>)
    requires Linked(nx, pv, lists) && k < ORDERS && node < NPAGE
    requires Elsewhere(nx, nx', NPAGE + k, lists[k], node) && Elsewhere(pv, pv', NPAGE + k, lists[k], node)
    requires Ring(nx', pv', NPAGE + k, l)
    requires forall j :: 0 <= j < ORDERS && j != k ==> node !in lists[j]
    requires forall x :: x in l ==> x in lists[k] || x == node
    ensures Linked(nx', pv', lists[k := l])
  {
    var r := lists[k := l];
    forall j | 0 <= j < ORDERS
      ensures Ring(nx', pv', NPAGE + j, r[j])
    {
      if j != k {
        RingElsewhere(nx, pv, nx', pv', NPAGE + k, lists[k], NPAGE + j, lists[j], node);
      }
    }
  }

  class Buddy {
    const pages: array<Page>
    const nx: array<nat>
    const pv: array<nat>
    const nr: array<nat>
    ghost var lists: seq<seq<nat>>

    ghost predicate Shape()
      reads this
    {
      && pages.Length == NPAGE && nx.Length == pv.Length == NPAGE + ORDERS && nr.Length == ORDERS
      && nx != pv && nx != nr && pv != nr && |lists| == ORDERS
    }

    /** Pointers and counters agree with the lists. */
    ghost predicate Threaded()
      reads this, nx, pv, nr
    {
      && Shape() && Linked(nx[..], pv[..], lists)
      && forall k :: 0 <= k < ORDERS ==> nr[k] == |lists[k]|
    }

    ghost function Rep(): State
      reads this, pages
    {
      State(BlocksOf(pages[..]), lists)
    }

    ghost predicate Ok()
      reads this, pages, nx, pv, nr
    {
      Threaded() && Valid(Rep())
    }

    // list_append to the free list of order `k`, with its counter
    method Attach(k: nat, p: nat)
      requires Threaded() && k < ORDERS && p < NPAGE
      requires forall j :: 0 <= j < ORDERS ==> p !in lists[j]
      modifies this`lists, nx, pv, nr
      ensures Threaded() && lists == old(lists)[k := old(lists)[k] + [p]]
    {
      ghost var l := lists[k];
      ListAppend(nx, pv, p, NPAGE + k, l);
      LinkedAfter(old(nx[..]), old(pv[..]), lists, k, p, nx[..], pv[..], l + [p]);
      nr[k] := nr[k] + 1;
      lists := lists[k := l + [p]];
    }

    // list_del from the free list of order `k`, with its counter
    method Detach(k: nat, p: nat)
      requires Threaded() && k < ORDERS && p in lists[k]
      modifies this`lists, nx, pv, nr
      ensures Threaded() && lists == old(lists)[k := Drop(old(lists)[k], p)]
    {
      ghost var l := lists[k];
      ghost var i := IndexOf(l, p);
      ListDel(nx, pv, p, NPAGE + k, l, i);
      forall x | x in Drop(l, p) ensures x in l {
        InWithout(l, i, x);
      }
      LinkedAfter(old(nx[..]), old(pv[..]), lists, k, p, nx[..], pv[..], Drop(l, p));
      nr[k] := nr[k] - 1;
      lists := lists[k := Drop(l, p)];
    }

    // buddy_lists_init and buddy_pages_init
    constructor ()
      ensures Ok() && Rep() == Initial()
    {
      pages := new Page[NPAGE](_ => Page(0, false, 0));
      nx := new nat[NPAGE + ORDERS](_ => 0);
      pv := new nat[NPAGE + ORDERS](_ => 0);
      nr := new nat[ORDERS](_ => 0);
      lists := NoBlocks();
      new;
      var i := 0;
      while i < ORDERS
        invariant 0 <= i <= ORDERS && Shape() && lists == NoBlocks()
        invariant fresh(pages) && fresh(nx) && fresh(pv) && fresh(nr) && pages[..] == seq(NPAGE, _ => Page(0, false, 0))
        invariant forall h :: NPAGE <= h < NPAGE + i ==> nx[h] == h && pv[h] == h
        invariant forall k :: 0 <= k < ORDERS ==> nr[k] == 0
      {
        InitListHead(nx, pv, NPAGE + i);
        i := i + 1;
      }
      EmptyLinked(nx[..], pv[..], lists);
      InitPages();
    }

    // buddy_pages_init
    method InitPages()
      requires Threaded() && lists == NoBlocks() && pages[..] == seq(NPAGE, _ => Page(0, false, 0))
      modifies this`lists, pages, nx, pv, nr
      ensures Ok() && Rep() == Initial()
    {
      hide Linked;
      AddTop(0);
      OneTop(lists);
      AddTop(0x2000);
      assert [0] + [0x2000] == [0, 0x2000];
      InitialRep(pages[..], lists);
    }

    // One turn of buddy_pages_init.
    method AddTop(i: nat)
      requires Threaded() && i < NPAGE && forall j :: 0 <= j < ORDERS ==> i !in lists[j]
      modifies this`lists, pages, nx, pv, nr
      ensures Threaded() && pages[..] == old(pages[..])[i := Page(TOP, true, HEAD)]
      ensures lists == old(lists)[TOP := old(lists)[TOP] + [i]]
    {
      pages[i] := Page(TOP, true, HEAD);
      Attach(TOP, i);
    }

    /** The first page of a list, found through the head's `next`. */
    method First(k: nat) returns (p: nat)
      requires Ok() && k < ORDERS && lists[k] != []
      ensures p == lists[k][0] && p < NPAGE && pages[p] == Page(k, true, HEAD)
    {
      hide Tiled;
      p := nx[NPAGE + k];
      ListedAt(Rep(), k, p);
    }

    // One turn of the loop of buddy_split.
    method HalveFirst(t: nat) returns (p: nat)
      requires Ok() && 0 < t < ORDERS && lists[t] != []
      modifies this`lists, pages, nx, pv, nr
      ensures Ok() && Rep() == Halve(old(Rep()), t) && p == old(lists)[t][0]
    {
      hide Tiled, Listed, Linked, Pow2;
      ghost var s := Rep();
      p := First(t);
      HalvePlaces(s, t);
      HalveValid(s, t);
      Detach(t, p);
      var q := p + Pow2(t - 1);
      Attach(t - 1, p);
      Attach(t - 1, q);
      BlocksOfUpdate(pages[..], p, Page(t - 1, true, HEAD));
      pages[p] := Page(t - 1, true, HEAD);
      BlocksOfUpdate(pages[..], q, Page(t - 1, true, HEAD));
      pages[q] := Page(t - 1, true, HEAD);
      assert old(lists)[t - 1] + [p] + [q] == old(lists)[t - 1] + [p, q];
      assert lists == Halve(s, t).lists;
      assert BlocksOf(pages[..]) == Halve(s, t).blocks;
    }

    // buddy_split
    method SplitFirst(large: nat, small: nat) returns (p: nat)
      requires Ok() && small < large < ORDERS && lists[large] != []
      requires forall j :: small <= j < large ==> lists[j] == []
      modifies this`lists, pages, nx, pv, nr
      ensures Ok() && Rep() == Split(old(Rep()), large, small) && p == old(lists)[large][0]
    {
      hide Tiled, Listed, Linked, Pow2;
      ghost var s := Rep();
      HalvedLists(s, large);
      p := HalveFirst(large);
      var tmp := large - 1;
      while tmp > small
        invariant small <= tmp < large && Ok() && p == s.lists[large][0]
        invariant |lists[tmp]| == 2 && lists[tmp][0] == p && forall j :: small <= j < tmp ==> lists[j] == []
        invariant Split(s, large, small) == if tmp > small then Split(Rep(), tmp, small) else Take(Rep(), small, 0)
      {
        HalvedLists(Rep(), tmp);
        p := HalveFirst(tmp);
        tmp := tmp - 1;
      }
      TakeFirst(small);
    }

    /** The first block of a list goes into use. */
    method TakeFirst(k: nat)
      requires Ok() && k < ORDERS && lists[k] != []
      modifies this`lists, pages, nx, pv, nr
      ensures Ok() && Rep() == Take(old(Rep()), k, 0)
    {
      hide Tiled, Listed, Linked, Pow2;
      ghost var s := Rep();
      TakeValid(s, k, 0);
      var p := First(k);
      BlocksOfUpdate(pages[..], p, pages[p].(free := false));
      pages[p] := pages[p].(free := false);
      Detach(k, p);
      assert lists == Take(s, k, 0).lists;
    }

    // buddy_allocate, once the order is known.  The search stops at the last order; the source
    // goes on to read one list head past it.
    method AllocateOrder(order: nat) returns (ok: bool, p: nat)
      requires Ok()
      modifies this`lists, pages, nx, pv, nr
      ensures Ok()
      ensures match Allocate(old(Rep()), order)
        case OutOfMemory => !ok && Rep() == old(Rep())
        case Got(page, s) => ok && p == page && Rep() == s
    {
      hide Tiled, Listed, Linked, Pow2, Split;
      ok, p := false, 0;
      if order >= ORDERS {
        return;
      }
      if nr[order] > 0 {
        p := First(order);
        TakeFirst(order);
        ok := true;
      } else {
        var t := order + 1;
        while t < ORDERS && nr[t] == 0
          invariant order < t <= ORDERS
          invariant FirstFit(lists, order) == FirstFit(lists, t)
          invariant forall j :: order <= j < t ==> lists[j] == []
        {
          t := t + 1;
        }
        if t < ORDERS {
          p := SplitFirst(t, order);
          ok := true;
        }
      }
    }

    // buddy_free_page.  The neighbour of the last block lies past the page array; the model does
    // not look there.
    method FreePage(p: nat)
      requires Ok() && p in Rep().blocks && !Rep().blocks[p].free
      modifies this`lists, pages, nx, pv, nr
      ensures Ok() && Rep() == Free(old(Rep()), p)
    {
      hide Tiled, Listed, Linked, Pow2, MergeOne;
      ghost var s := Rep();
      FreeParts(s, p);
      BlocksOfUpdate(pages[..], p, pages[p].(free := true));
      pages[p] := pages[p].(free := true);
      Attach(pages[p].order, p);
      while true
        invariant Ok() && p in Rep().blocks && Rep().blocks[p].free
        invariant Merge(Rep(), p) == Free(s, p)
        decreases TOP - pages[p].order
      {
        var o := pages[p].order;
        if o >= TOP {
          break;
        }
        var q := p + Pow2(o);
        if q < NPAGE && pages[q].free && pages[q].flag == HEAD && pages[q].order == o {
          MergeRight(p, q);
        } else {
          break;
        }
      }
    }

    // One turn of the loop of buddy_free_page.
    method MergeRight(p: nat, q: nat)
      requires Ok() && p in Rep().blocks && Rep().blocks[p].free && q == End(Rep(), p) && Mergeable(Rep(), p)
      modifies this`lists, pages, nx, pv, nr
      ensures Ok() && Rep() == MergeOne(old(Rep()), p)
      ensures p in Rep().blocks && Rep().blocks[p] == Block(old(pages[p].order) + 1, true)
    {
      hide Tiled, Listed, Linked, Pow2;
      ghost var s := Rep();
      MergeOneValid(s, p);
      MergePlaces(s, p);
      var o := pages[p].order;
      BlocksOfUpdate(pages[..], q, pages[q].(flag := TAIL));
      pages[q] := pages[q].(flag := TAIL);
      Detach(o, q);
      Detach(o, p);
      BlocksOfUpdate(pages[..], p, pages[p].(order := o + 1));
      pages[p] := pages[p].(order := o + 1);
      Attach(o + 1, p);
      assert BlocksOf(pages[..]) == MergeOne(s, p).blocks;
      assert lists == MergeOne(s, p).lists;
    }

    // buddy_statistics, in bytes
    method Statistics() returns (total: nat)
      requires Ok()
      ensures total == PAGE * Counted(lists, ORDERS)
      ensures total + PAGE * Pages(Rep(), 0, false) == PAGE * NPAGE
    {
      hide Tiled, Listed, Linked, Pow2;
      total := 0;
      var i := 0;
      while i < ORDERS
        invariant 0 <= i <= ORDERS && total == PAGE * Counted(lists, i)
      {
        var csize := PAGE * Pow2(i);
        total := total + nr[i] * csize;
        ScaleCount(|lists[i]|, Pow2(i));
        i := i + 1;
      }
      Conservation(Rep());
    }

    // kalloc: at least a page, at address pmm_start + index * PGSIZE
    method Kalloc(size: nat, pmmStart: nat) returns (ok: bool, addr: nat)
      requires Ok()
      modifies this`lists, pages, nx, pv, nr
      ensures Ok()
      ensures ok ==> var p := (addr - pmmStart) / PAGE;
        && addr >= pmmStart && addr == pmmStart + p * PAGE && p in Rep().blocks && !Rep().blocks[p].free
        && p in old(Rep()).blocks && old(Rep()).blocks[p].free
        && (size <= PAGE * Pow2(Rep().blocks[p].order) <==> size < WIDE)
        && addr + PAGE * Pow2(Rep().blocks[p].order) <= pmmStart + PAGE * NPAGE
      ensures ok ==> var p := (addr - pmmStart) / PAGE; Allocate(old(Rep()), Rep().blocks[p].order) == Got(p, Rep())
      ensures ok && size < WIDE ==> var o := Rep().blocks[(addr - pmmStart) / PAGE].order; o > 0 ==> PAGE * Pow2(o - 1) < size
      ensures ok ==> forall u :: u in old(Rep()).blocks && !old(Rep()).blocks[u].free ==>
        u in Rep().blocks && Rep().blocks[u] == old(Rep()).blocks[u]
      ensures !ok ==> Rep() == old(Rep())
      ensures !ok && size < WIDE ==> forall p :: p in Rep().blocks && Rep().blocks[p].free ==> PAGE * Pow2(Rep().blocks[p].order) < size
      ensures !ok && size >= WIDE ==> forall p :: p in Rep().blocks && Rep().blocks[p].free ==> Pow2(Rep().blocks[p].order) <= Max(Counted32(size), 1)
    {
      hide Tiled, Listed, Linked, Pow2, Split, Allocate, Counted32;
      ghost var s := Rep();
      var order := Size2Order(if size >= PAGE then size else PAGE);
      var p;
      ok, p := AllocateOrder(order);
      addr := pmmStart + p * PAGE;
      AllocateSpec(s, order);
      if ok {
        forall u | u in s.blocks && !s.blocks[u].free
          ensures u in Rep().blocks && Rep().blocks[u] == s.blocks[u]
        {
          AllocateKeepsUsed(s, order, u);
        }
        TiledAt(Rep(), p, p);
        LargeEnough(size, order);
        LeastOrder(size, order);
      } else {
        TooSmall(s, order, size);
      }
    }

    // A request of 2^44 bytes on fresh memory succeeds, with a block that cannot hold it.
    method WideRequest(pmmStart: nat) returns (ok: bool, addr: nat)
      requires Ok() && Rep() == Initial()
      modifies this`lists, pages, nx, pv, nr
      ensures ok && Ok() && (addr - pmmStart) / PAGE in Rep().blocks && PAGE * Pow2(Rep().blocks[(addr - pmmStart) / PAGE].order) < WIDE
    {
      Pow2Top();
      hide Ok, Pow2;
      ok, addr := Kalloc(WIDE, pmmStart);
      assert Initial().blocks[0] == Block(TOP, true);
    }
  }

  const WIDE := 0x1000_0000_0000     // 2^44 bytes: more pages than 32 bits count

  function Max(a: nat, b: nat): nat { if a > b then a else b }

  /** The pages of a request, on 32 bits. */
  function Counted32(size: nat): nat {
    size / PAGE % U32
  }

  // size2order.  The product wraps in signed arithmetic from order 19 on; no block is that large.
  method Size2Order(size: nat) returns (order: nat)
    requires size >= PAGE
    ensures OrderFor(size, order)
  {
    var nrPage := Counted32(size);
    var tmp := nrPage;
    order := 0;
    while tmp > 1
      invariant tmp * Pow2(order) <= nrPage < (tmp + 1) * Pow2(order)
      invariant nrPage >= 1 ==> tmp >= 1
      invariant order > 0 ==> tmp >= 1
    {
      HalfStep(tmp, nrPage, order);
      tmp := tmp / 2;
      order := order + 1;
    }
    ghost var log := order;
    var res: nat := *;
    if Pow2(order) < 0x8_0000 {
      res := Pow2(order) * PAGE;
    }
    if size > res {
      order := order + 1;
    }
    OrderFound(size, log, order);
  }

  /** The least order whose block holds the size; past 2^31 bytes an order no block has, and from 2^44 on
      the order above the pages left on 32 bits. */
  ghost predicate OrderFor(size: nat, order: nat) {
    && (size < 0x8000_0000 ==> size <= PAGE * Pow2(order) && (order > 0 ==> PAGE * Pow2(order - 1) < size))
    && (Counted32(size) >= 0x8_0000 ==> order > TOP)
    && (size >= WIDE && Counted32(size) < 0x8_0000 ==> order > 0 && Pow2(order - 1) <= Max(Counted32(size), 1))
  }

  lemma OrderFound(size: nat, log: nat, order: nat)
    requires size >= PAGE && (if Counted32(size) > 0 then Pow2(log) <= Counted32(size) < 2 * Pow2(log) else log == 0)
    requires log <= order <= log + 1 && (Pow2(log) < 0x8_0000 ==> (order == log + 1 <==> size > Pow2(log) * PAGE))
    ensures OrderFor(size, order)
  {
    assert Pow2(log + 1) == 2 * Pow2(log);
    if Counted32(size) >= 0x8_0000 {
      if log <= TOP {
        Pow2Mono(log, TOP);
        Pow2Top();
      }
    }
    if size < 0x8000_0000 {
      assert Counted32(size) == size / PAGE < 0x8_0000;
      if log > 0 {
        assert Pow2(log) == 2 * Pow2(log - 1);
      }
    }
  }

  lemma LargeEnough(size: nat, order: nat)
    requires OrderFor(if size >= PAGE then size else PAGE, order) && order <= TOP
    ensures size <= PAGE * Pow2(order) <==> size < WIDE
  {
    Pow2Mono(order, TOP);
    Pow2Top();
  }

  /** No smaller order holds the size. */
  lemma LeastOrder(size: nat, order: nat)
    requires OrderFor(if size >= PAGE then size else PAGE, order) && order <= TOP
    ensures order > 0 && size < WIDE ==> PAGE * Pow2(order - 1) < size
  {
    if order > 0 {
      Pow2Mono(0, order - 1);
    }
  }

  lemma HalfStep(tmp: nat, n: nat, order: nat)
    requires tmp * Pow2(order) <= n < (tmp + 1) * Pow2(order)
    ensures tmp / 2 * Pow2(order + 1) <= n < (tmp / 2 + 1) * Pow2(order + 1)
  {
    var h, b := tmp / 2, Pow2(order);
    assert Pow2(order + 1) == 2 * b;
    assert h * (2 * b) == (2 * h) * b && (h + 1) * (2 * b) == (2 * h + 2) * b;
    assert (2 * h) * b <= tmp * b;
    assert (tmp + 1) * b <= (2 * h + 2) * b;
  }

  lemma ScaleCount(n: nat, b: nat)
    ensures n * (PAGE * b) == PAGE * (n * b)
  {
  }

  lemma TooSmall(s: State, order: nat, size: nat)
    requires Tiled(s) && forall p :: p in s.blocks && s.blocks[p].free ==> s.blocks[p].order < order
    requires OrderFor(if size >= PAGE then size else PAGE, order)
    ensures forall p :: p in s.blocks && s.blocks[p].free ==>
      if size < WIDE then PAGE * Pow2(s.blocks[p].order) < size else Pow2(s.blocks[p].order) <= Max(Counted32(size), 1)
  {
    hide Tiled, Pow2;
    forall p | p in s.blocks && s.blocks[p].free
      ensures if size < WIDE then PAGE * Pow2(s.blocks[p].order) < size else Pow2(s.blocks[p].order) <= Max(Counted32(size), 1)
    {
      TiledAt(s, p, p);
      Pow2Mono(s.blocks[p].order, order - 1);
      Pow2Mono(s.blocks[p].order, TOP);
      Pow2Top();
    }
  }

  lemma FreeParts(s: State, p: nat)
    requires Valid(s) && p in s.blocks && !s.blocks[p].free
    ensures s.blocks[p].order < ORDERS && p < NPAGE && Valid(Release(s, p)) && Free(s, p) == Merge(Release(s, p), p)
    ensures |s.lists| == ORDERS && forall j :: 0 <= j < ORDERS ==> p !in s.lists[j]
  {
    hide Tiled, Pow2, Merge;
    ReleaseValid(s, p);
    TiledAt(s, p, p);
  }

  /** Before a merge both blocks are in the order's list and in no other. */
  lemma MergePlaces(s: State, p: nat)
    requires Valid(s) && p in s.blocks && s.blocks[p].free && Mergeable(s, p)
    ensures var o, q := s.blocks[p].order, End(s, p);
      && o < TOP && q < NPAGE && p < NPAGE && p != q && |s.lists| == ORDERS
      && q in s.lists[o] && p in Drop(s.lists[o], q) && p !in Drop(Drop(s.lists[o], q), p)
      && forall j :: 0 <= j < ORDERS && j != o ==> p !in s.lists[j]
  {
    hide Tiled, Pow2, Drop;
    TiledAt(s, p, p);
    var o, q := s.blocks[p].order, End(s, p);
    TiledAt(s, q, q);
    assert p in s.lists[o] && q in s.lists[o];
    DropTwo(s.lists[o], q, p, p);
  }

  lemma EmptyLinked(nx: seq<nat>, pv: seq<nat>, lists: seq<seq<nat>>)
    requires |nx| == |pv| == NPAGE + ORDERS && lists == NoBlocks()
    requires forall h :: NPAGE <= h < NPAGE + ORDERS ==> nx[h] == h && pv[h] == h
    ensures Linked(nx, pv, lists)
  {
  }

  lemma OneTop(ls: seq<seq<nat>>)
    requires ls == NoBlocks()[TOP := [] + [0]]
    ensures |ls| == ORDERS && forall j :: 0 <= j < ORDERS ==> ls[j] == if j == TOP then [0] else []
  {
  }

  lemma InitialRep(ps: seq<Page>, lists: seq<seq<nat>>)
    requires ps == seq(NPAGE, _ => Page(0, false, 0))[0 := Page(TOP, true, HEAD)][0x2000 := Page(TOP, true, HEAD)]
    requires |lists| == ORDERS && forall j :: 0 <= j < ORDERS ==> lists[j] == if j == TOP then [0, 0x2000] else []
    ensures State(BlocksOf(ps), lists) == Initial() && Valid(Initial())
  {
    InitialValid();
    assert lists == Initial().lists;
  }

  /** Where the halves of the first block of order `t` lie: nowhere in any list. */
  lemma HalvePlaces(s: State, t: nat)
    requires Valid(s) && 0 < t < ORDERS && s.lists[t] != []
    ensures var p, q := s.lists[t][0], s.lists[t][0] + Pow2(t - 1);
      && p != q && q < NPAGE && Drop(s.lists[t], p) == s.lists[t][1..]
      && (forall k :: 0 <= k < ORDERS ==> q !in s.lists[k] && (k != t ==> p !in s.lists[k]))
      && p !in Drop(s.lists[t], p) && q !in Drop(s.lists[t], p)
  {
    hide Tiled, Listed, Pow2;
    ListedAt(s, t, 0);
    var p: nat, q: nat := s.lists[t][0], s.lists[t][0] + Pow2(t - 1);
    ListedAt(s, t, p);
    TiledAt(s, p, p);
    NotInside2(s, p, t);
    HalfUnlisted(s, t, p, q);
    HeadDropped(s.lists[t], p, q);
  }

  lemma HalfUnlisted(s: State, t: nat, p: nat, q: nat)
    requires Listed(s) && t < ORDERS && p in s.blocks && s.blocks[p] == Block(t, true) && q !in s.blocks
    ensures |s.lists| == ORDERS && forall k :: 0 <= k < ORDERS ==> q !in s.lists[k] && (k != t ==> p !in s.lists[k])
  {
    hide Listed;
    ListedAt(s, t, p);
    forall k | 0 <= k < ORDERS
      ensures q !in s.lists[k] && (k != t ==> p !in s.lists[k])
    {
      ListedAt(s, k, p);
      ListedAt(s, k, q);
    }
  }

  lemma HeadDropped(l: seq<nat>, p: nat, q: nat)
    requires Distinct(l) && l != [] && l[0] == p && q !in l
    ensures Drop(l, p) == l[1..] && p !in Drop(l, p) && q !in Drop(l, p)
  {
    assert p in l;
    InWithout(l, 0, p);
    InWithout(l, 0, q);
    assert Without(l, 0) == l[1..];
  }
}
