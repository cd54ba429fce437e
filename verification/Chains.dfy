/** Cluster chains as they live in a table: following, searching, extending and freeing them. */
module Chains {

  // A table entry is free (0), a link, or the end marker `eoc`, which exceeds every cluster number.
  type Tab = seq<nat>

  predicate Stop(eoc: nat, c: nat) { c == 0 || c == eoc }

  /** `ch` is a whole cluster chain, from its first cluster to the one marked last. */
  predicate IsChain(t: Tab, eoc: nat, ch: seq<nat>) {
    && |ch| >= 1 && |t| <= eoc
    && (forall i :: 0 <= i < |ch| ==> 2 <= ch[i] < |t|)
    && (forall i {:trigger t[ch[i]]} :: 0 <= i < |ch| - 1 ==> t[ch[i]] == ch[i + 1])
    && t[ch[|ch| - 1]] == eoc
  }

  /** A chain never visits a cluster twice. */
  lemma {:induction false} ChainAcyclic(t: Tab, eoc: nat, ch: seq<nat>, i: nat, j: nat)
    requires IsChain(t, eoc, ch) && i < j < |ch|
    ensures ch[i] != ch[j]
    decreases |ch| - j
  {
    if ch[i] == ch[j] {
      assert t[ch[i]] == ch[i + 1];
      if j + 1 < |ch| {
        assert t[ch[j]] == ch[j + 1];
        ChainAcyclic(t, eoc, ch, i + 1, j + 1);
      }
    }
  }

  lemma ChainDistinct(t: Tab, eoc: nat, ch: seq<nat>)
    requires IsChain(t, eoc, ch)
    ensures forall i, j :: 0 <= i < |ch| && 0 <= j < |ch| && ch[i] == ch[j] ==> i == j
  {
    forall i, j | 0 <= i < |ch| && 0 <= j < |ch| && ch[i] == ch[j]
      ensures i == j
    {
      if i < j { ChainAcyclic(t, eoc, ch, i, j); }
      if j < i { ChainAcyclic(t, eoc, ch, j, i); }
    }
  }

  /** No cluster of a chain is free. */
  lemma ChainInUse(t: Tab, eoc: nat, ch: seq<nat>, c: nat)
    requires IsChain(t, eoc, ch) && c in ch
    ensures c < |t| && t[c] != 0
  {
    var i :| 0 <= i < |ch| && ch[i] == c;
    if i < |ch| - 1 { assert t[ch[i]] == ch[i + 1]; }
  }

  // ---- Searching for a free cluster (fat_find_free_cluster) -------------------------------

  /** The least free cluster in [lo, hi), or 0. */
  function FirstFree(t: Tab, lo: nat, hi: nat): (r: nat)
    requires 2 <= lo && hi <= |t|
    ensures r == 0 ==> forall i :: lo <= i < hi ==> t[i] != 0
    ensures r != 0 ==> lo <= r < hi && t[r] == 0 && forall i :: lo <= i < r ==> t[i] != 0
    decreases hi - lo
  {
    if lo >= hi then 0 else if t[lo] == 0 then lo else FirstFree(t, lo + 1, hi)
  }

  /** Next-fit from `last`, wrapping to 2; cluster numbers from `count` on are never searched. */
  function NextFree(t: Tab, last: nat, count: nat): (r: nat)
    requires 2 <= last <= |t| && count <= |t|
    ensures r != 0 ==> 2 <= r < |t| && t[r] == 0
  {
    var a := FirstFree(t, last, count);
    if a != 0 then a else FirstFree(t, 2, last)
  }

  /** Where a search may start: at 2, or where one ended before. */
  predicate SearchFrom(last: nat, count: nat) { 2 <= last && (last == 2 || last < count) }

  /** The free clusters the search can find. */
  ghost function FreeSet(t: Tab, count: nat): set<nat>
    requires count <= |t|
  {
    set i: nat | 2 <= i < count && t[i] == 0
  }

  /** From such a start the search finds a free cluster in [2, count) if and only if there is one. */
  lemma NextFreeIff(t: Tab, last: nat, count: nat)
    requires SearchFrom(last, count) && last <= |t| && count <= |t|
    ensures NextFree(t, last, count) == 0 <==> FreeSet(t, count) == {}
    ensures NextFree(t, last, count) != 0 ==> NextFree(t, last, count) in FreeSet(t, count)
    ensures NextFree(t, last, count) != 0 ==> SearchFrom(NextFree(t, last, count), count)
  {
    var r := NextFree(t, last, count);
    if r == 0 {
      assert forall i :: 2 <= i < count ==> t[i] != 0;
      assert FreeSet(t, count) == {};
    } else {
      assert 2 <= r < count && r in FreeSet(t, count);
    }
  }

  /** The search fails only when [2, count) has no free cluster left. */
  lemma NextFreeComplete(t: Tab, last: nat, count: nat)
    requires 2 <= last <= |t| && count <= |t|
    ensures NextFree(t, last, count) == 0 ==> forall i :: 2 <= i < count ==> t[i] != 0
    ensures last <= count ==> (NextFree(t, last, count) == 0 <==> forall i :: 2 <= i < count ==> t[i] != 0)
  {
  }

  /** The cluster found is the first free one from the start on; failing that, the first one from 2 on. */
  lemma NextFreeFirst(t: Tab, last: nat, count: nat)
    requires 2 <= last <= |t| && count <= |t|
    ensures var r := NextFree(t, last, count);
      r != 0 ==> t[r] == 0 && if last <= r then r < count && forall i :: last <= i < r ==> t[i] != 0
        else (forall i :: last <= i < count ==> t[i] != 0) && forall i :: 2 <= i < r ==> t[i] != 0
  {
  }

  // ---- Freeing (fat_chain_unlink) ---------------------------------------------------------

  ghost function InUse(t: Tab): set<nat> { set i: nat | i < |t| && t[i] != 0 }

  lemma ClearedEntry(t: Tab, c: nat)
    requires c < |t|
    ensures InUse(t[c := 0]) == InUse(t) - {c}
    ensures t[c] != 0 ==> |InUse(t[c := 0])| < |InUse(t)|
  {
    assert t[c] != 0 ==> c in InUse(t);
    assert InUse(t[c := 0]) == InUse(t) - {c};
  }

  /** Where `n` links from `c` lead; 0 once the walk has stopped. */
  ghost function Follow(t: Tab, eoc: nat, c: nat, n: nat): (d: nat)
    decreases n
  {
    if n == 0 then c else if Stop(eoc, c) || c >= |t| then 0 else Follow(t, eoc, t[c], n - 1)
  }

  /** The walk from `c` never leaves the table; entries it does not meet may hold anything. */
  ghost predicate InRange(t: Tab, eoc: nat, c: nat) {
    |t| <= eoc && forall n: nat :: Inside(t, eoc, Follow(t, eoc, c, n))
  }

  predicate Inside(t: Tab, eoc: nat, d: nat) { Stop(eoc, d) || d < |t| }

  lemma WalkOn(t: Tab, eoc: nat, c: nat)
    requires InRange(t, eoc, c)
    ensures Inside(t, eoc, c)
    ensures !Stop(eoc, c) ==> InRange(t, eoc, t[c]) && InRange(t[c := 0], eoc, t[c])
  {
    assert Inside(t, eoc, Follow(t, eoc, c, 0));
    if !Stop(eoc, c) {
      var u := t[c := 0];
      forall n: nat ensures Inside(t, eoc, Follow(t, eoc, t[c], n)) {
        assert Follow(t, eoc, c, n + 1) == Follow(t, eoc, t[c], n);
      }
      forall n: nat ensures Inside(u, eoc, Follow(u, eoc, t[c], n)) {
        assert Inside(t, eoc, Follow(t, eoc, t[c], n));
        if !Stop(eoc, Follow(u, eoc, t[c], n)) {
          ClearingReachesLess(t, eoc, c, t[c], n);
        }
      }
    }
  }

  /**
   * The table after unlinking from cluster `c`: any table the walk does not leave, also one whose
   * chains run into each other or in circles.  The number of non-free entries bounds the work.
   */
  ghost function Unlink(t: Tab, eoc: nat, c: nat): (r: Tab)
    requires InRange(t, eoc, c)
    ensures |r| == |t|
    decreases |InUse(t)|, if Stop(eoc, c) then 0 else 1
  {
    if Stop(eoc, c) then t else WalkOn(t, eoc, c); ClearedEntry(t, c); Unlink(t[c := 0], eoc, t[c])
  }

  ghost predicate Reachable(t: Tab, eoc: nat, c: nat, x: nat)
  {
    !Stop(eoc, x) && exists n: nat :: Follow(t, eoc, c, n) == x
  }

  lemma {:induction false} FollowStep(t: Tab, eoc: nat, c: nat, m: nat, n: nat)
    requires m <= n
    requires !Stop(eoc, Follow(t, eoc, c, n))
    ensures !Stop(eoc, Follow(t, eoc, c, m))
    ensures Follow(t, eoc, c, n) == Follow(t, eoc, Follow(t, eoc, c, m), n - m)
    decreases n
  {
    if m > 0 { FollowStep(t, eoc, t[c], m - 1, n - 1); }
  }

  /** A walk either avoids `z` and so survives clearing it, or passes through `z`. */
  lemma {:induction false} AvoidOrHit(t: Tab, eoc: nat, z: nat, c: nat, n: nat) returns (k: nat)
    requires z < |t|
    requires !Stop(eoc, Follow(t, eoc, c, n))
    ensures k <= n
    ensures k < n ==> Follow(t, eoc, c, k) == z
    ensures k == n ==> Follow(t[z := 0], eoc, c, n) == Follow(t, eoc, c, n)
    decreases n
  {
    if n == 0 {
      k := 0;
    } else if c == z {
      k := 0;
    } else {
      var k' := AvoidOrHit(t, eoc, z, t[c], n - 1);
      k := k' + 1;
    }
  }

  lemma {:induction false} ClearingReachesLess(t: Tab, eoc: nat, z: nat, c: nat, n: nat)
    requires z < |t|
    requires !Stop(eoc, Follow(t[z := 0], eoc, c, n))
    ensures Follow(t, eoc, c, n) == Follow(t[z := 0], eoc, c, n)
    decreases n
  {
    if n > 0 && c != z {
      ClearingReachesLess(t, eoc, z, t[c], n - 1);
    }
  }

  lemma {:induction false} ReachedIsFreed(t: Tab, eoc: nat, c: nat, n: nat)
    requires InRange(t, eoc, c)
    requires !Stop(eoc, Follow(t, eoc, c, n))
    ensures Unlink(t, eoc, c)[Follow(t, eoc, c, n)] == 0
    decreases n
  {
    var x := Follow(t, eoc, c, n);
    WalkOn(t, eoc, c);
    FollowStep(t, eoc, c, 0, n);
    ClearedEntry(t, c);
    if n == 0 {
      FreeStaysFree(t[c := 0], eoc, t[c], c);
    } else {
      var k := AvoidOrHit(t, eoc, c, t[c], n - 1);
      if k < n - 1 {
        FollowStep(t, eoc, t[c], k, n - 1);
        ReachedIsFreed(t, eoc, c, n - 1 - k);
      } else {
        ReachedIsFreed(t[c := 0], eoc, t[c], n - 1);
      }
    }
  }

  lemma {:induction false} FreeStaysFree(t: Tab, eoc: nat, c: nat, x: nat)
    requires InRange(t, eoc, c) && x < |t| && t[x] == 0
    ensures Unlink(t, eoc, c)[x] == 0
    decreases |InUse(t)|, if Stop(eoc, c) then 0 else 1
  {
    if !Stop(eoc, c) {
      WalkOn(t, eoc, c);
      ClearedEntry(t, c);
      FreeStaysFree(t[c := 0], eoc, t[c], x);
    }
  }

  lemma {:induction false} FreedIsReached(t: Tab, eoc: nat, c: nat, x: nat) returns (n: nat)
    requires InRange(t, eoc, c) && x < |t| && Unlink(t, eoc, c)[x] != t[x]
    ensures Follow(t, eoc, c, n) == x && !Stop(eoc, x)
    decreases |InUse(t)|, if Stop(eoc, c) then 0 else 1
  {
    WalkOn(t, eoc, c);
    ClearedEntry(t, c);
    if x == c {
      n := 0;
    } else {
      var m := FreedIsReached(t[c := 0], eoc, t[c], x);
      ClearingReachesLess(t, eoc, c, t[c], m);
      n := m + 1;
    }
  }

  /** Unlinking zeroes exactly the entries reachable from its start. */
  lemma UnlinkExact(t: Tab, eoc: nat, c: nat, x: nat)
    requires InRange(t, eoc, c) && x < |t|
    ensures Unlink(t, eoc, c)[x] == if Reachable(t, eoc, c, x) then 0 else t[x]
  {
    if Reachable(t, eoc, c, x) {
      var n: nat :| Follow(t, eoc, c, n) == x;
      ReachedIsFreed(t, eoc, c, n);
    } else if Unlink(t, eoc, c)[x] != t[x] {
      var n := FreedIsReached(t, eoc, c, x);
    }
  }

  /** The walk from the head of a whole chain is the chain, the end marker, and nothing. */
  lemma {:induction false} ChainFollowed(t: Tab, eoc: nat, ch: seq<nat>, i: nat, n: nat)
    requires IsChain(t, eoc, ch) && i < |ch|
    ensures Follow(t, eoc, ch[i], n) == if i + n < |ch| then ch[i + n] else if i + n == |ch| then eoc else 0
    decreases n
  {
    if n > 0 && i + 1 < |ch| {
      assert t[ch[i]] == ch[i + 1];
      ChainFollowed(t, eoc, ch, i + 1, n - 1);
    }
  }

  lemma ChainInRange(t: Tab, eoc: nat, ch: seq<nat>)
    requires IsChain(t, eoc, ch)
    ensures InRange(t, eoc, ch[0])
  {
    forall n: nat ensures Inside(t, eoc, Follow(t, eoc, ch[0], n)) {
      ChainFollowed(t, eoc, ch, 0, n);
    }
  }

  /** From the head of a whole chain, that is exactly the chain's clusters. */
  lemma {:induction false} UnlinkChain(t: Tab, eoc: nat, ch: seq<nat>, x: nat)
    requires IsChain(t, eoc, ch) && x < |t|
    ensures InRange(t, eoc, ch[0]) && Unlink(t, eoc, ch[0])[x] == if x in ch then 0 else t[x]
    decreases |ch|
  {
    var c := ch[0];
    ChainInRange(t, eoc, ch);
    WalkOn(t, eoc, c);
    ClearedEntry(t, c);
    ChainDistinct(t, eoc, ch);
    if |ch| > 1 {
      assert forall i :: 0 <= i < |ch| - 1 ==> ch[1..][i] == ch[i + 1];
      assert IsChain(t[c := 0], eoc, ch[1..]);
      UnlinkChain(t[c := 0], eoc, ch[1..], x);
      assert x in ch <==> x == c || x in ch[1..];
    }
  }
}
