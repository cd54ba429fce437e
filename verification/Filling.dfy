/** What writing entries one after the other does to the slots of a directory that may fill up. */
module Filling {
  import opened Arithmetic
  import opened Bytes
  import opened Growth
  import opened LongNames
  import opened Slots

  const BLANK: Slot := seq(SLOT, _ => 0)

  function Blanks(n: nat): (r: seq<Slot>)
    ensures |r| == n
  {
    seq(n, _ => BLANK)
  }

  // ---- A chain of clusters ----------------------------------------------------------------

  /**
   * fat_write, once for each slot of `w`, from slot `k` on, in a directory whose clusters have `c` slots,
   * with `free` clusters left.  The slot that fills the last cluster calls for another one, blank; when
   * there is none the cursor stays on the last cluster, and the next slot goes to its beginning.
   */
  function Put(all: seq<Slot>, k: nat, free: nat, w: seq<Slot>, c: nat): (r: seq<Slot>)
    requires k < |all| && 0 < c <= |all|
    ensures |all| <= |r| <= |all| + c * free
    decreases |w|
  {
    if w == [] then all
    else
      var b := all[k := w[0]];
      if k + 1 < |b| then Put(b, k + 1, free, w[1..], c)
      else if free > 0 then
        MulSucc(free - 1, c);
        assert c * free == c * (free - 1) + c;
        Put(b + Blanks(c), k + 1, free - 1, w[1..], c)
      else Put(b, |b| - c, 0, w[1..], c)
  }

  /** The slots there are room for from the beginning of the directory. */
  function Most(all: seq<Slot>, free: nat, c: nat): nat {
    |all| + c * free
  }

  /** Slots that end within what there is end up side by side. */
  lemma {:induction false} PutFits(all: seq<Slot>, k: nat, free: nat, w: seq<Slot>, c: nat)
    requires k < |all| && 0 < c <= |all| && k + |w| <= Most(all, free, c)
    ensures Placed(all, Put(all, k, free, w, c), k, w)
    decreases |w|
  {
    hide Placed;
    var r := Put(all, k, free, w, c);
    if w == [] {
      PlacedNothing(all, k);
    } else {
      var b := all[k := w[0]];
      if k + 1 < |b| {
        PutFits(b, k + 1, free, w[1..], c);
        PlacedOne(all, b, r, k, w);
      } else if free > 0 {
        MulSucc(free - 1, c);
        PutFits(b + Blanks(c), k + 1, free - 1, w[1..], c);
        PlacedOne(all, b + Blanks(c), r, k, w);
      } else {
        assert Most(all, 0, c) == |all|;
        PlacedSingle(all, k, w);
      }
    }
  }

  lemma PlacedNothing(a: seq<Slot>, k: nat)
    requires k <= |a|
    ensures Placed(a, a, k, [])
  {
  }

  lemma PlacedSingle(a: seq<Slot>, k: nat, w: seq<Slot>)
    requires k < |a| && |w| == 1
    ensures w[1..] == [] && Placed(a, a[k := w[0]], k, w)
  {
    var b := a[k := w[0]];
    assert b[k..k + 1] == [b[k]] && w == [w[0]];
  }

  /** One slot first, then the others. */
  lemma PlacedOne(a: seq<Slot>, b: seq<Slot>, r: seq<Slot>, k: nat, w: seq<Slot>)
    requires k < |a| <= |b| && w != [] && b[..|a|] == a[k := w[0]] && (forall j :: |a| <= j < |b| ==> b[j][0] == 0)
    requires Placed(b, r, k + 1, w[1..])
    ensures Placed(a, r, k, w)
  {
    assert forall j :: 0 <= j < |a| ==> b[j] == b[..|a|][j];
    forall j | 0 <= j < |w|
      ensures r[k..k + |w|][j] == w[j]
    {
      if j > 0 {
        assert r[k + 1..k + 1 + |w[1..]|][j - 1] == w[1..][j - 1];
      }
    }
  }

  /** The entries end up side by side if and only if they end within the clusters of the directory and
      the free ones, the last slot included. */
  lemma PutIff(all: seq<Slot>, k: nat, free: nat, w: seq<Slot>, c: nat)
    requires k < |all| && 0 < c <= |all|
    ensures Placed(all, Put(all, k, free, w, c), k, w) <==> k + |w| <= Most(all, free, c)
  {
    if k + |w| <= Most(all, free, c) {
      PutFits(all, k, free, w, c);
    }
  }

  /** `x` is one of the slots from `from` on. */
  ghost predicate Among(w: seq<Slot>, from: int, x: Slot) {
    exists j :: 0 <= j < |w| && from <= j && w[j] == x
  }

  lemma AmongNext(w: seq<Slot>, from: int, x: Slot)
    requires w != [] && Among(w[1..], from, x)
    ensures Among(w, from + 1, x)
  {
    var j :| 0 <= j < |w[1..]| && from <= j && w[1..][j] == x;
    assert w[j + 1] == x;
  }

  /** With nothing free, what is written behind the end begins at the last cluster's first slot. */
  lemma {:induction false} LapStart(all: seq<Slot>, k: nat, w: seq<Slot>, c: nat)
    requires 0 < c <= |all| && |all| - c < k < |all|
    ensures |Put(all, k, 0, w, c)| == |all|
    ensures |w| <= |all| - k ==> Put(all, k, 0, w, c)[|all| - c] == all[|all| - c]
    ensures |w| > |all| - k ==> Among(w, |all| - k, Put(all, k, 0, w, c)[|all| - c])
    decreases |w|
  {
    hide Among;
    if w != [] {
      var b := all[k := w[0]];
      if k + 1 < |b| {
        LapStart(b, k + 1, w[1..], c);
        if |w| > |all| - k {
          AmongNext(w, |b| - (k + 1), Put(b, k + 1, 0, w[1..], c)[|b| - c]);
        }
      } else if |w| > 1 {
        LapOver(b, w[1..], c);
        AmongNext(w, 0, Put(b, |b| - c, 0, w[1..], c)[|b| - c]);
      }
    }
  }

  lemma {:induction false} LapOver(all: seq<Slot>, w: seq<Slot>, c: nat)
    requires 0 < c <= |all| && w != []
    ensures |Put(all, |all| - c, 0, w, c)| == |all|
    ensures Among(w, 0, Put(all, |all| - c, 0, w, c)[|all| - c])
    decreases |w|
  {
    var k := |all| - c;
    var b := all[k := w[0]];
    if c > 1 {
      LapStart(b, k + 1, w[1..], c);
      if |w[1..]| > |b| - (k + 1) {
        AmongNext(w, |b| - (k + 1), Put(b, k + 1, 0, w[1..], c)[|b| - c]);
      } else {
        assert Put(all, k, 0, w, c)[k] == w[0];
      }
    } else if |w| > 1 {
      LapOver(b, w[1..], c);
      AmongNext(w, 0, Put(b, |b| - c, 0, w[1..], c)[|b| - c]);
    } else {
      assert Put(all, k, 0, w, c) == b && b[k] == w[0];
    }
  }

  /** `r` has `n` slots, and the first one of its last cluster is a slot of `w` that, counted on from `k`,
      lies behind the end. */
  ghost predicate Over(r: seq<Slot>, n: nat, k: nat, w: seq<Slot>, c: nat) {
    |r| == n && 0 < c <= n && Among(w, n - k, r[n - c])
  }

  lemma OverNext(r: seq<Slot>, n: nat, k: nat, w: seq<Slot>, c: nat)
    requires w != [] && Over(r, n, k + 1, w[1..], c)
    ensures Over(r, n, k, w, c)
  {
    hide Among;
    AmongNext(w, n - (k + 1), r[n - c]);
  }

  /** Entries that do not fit take all there is and overwrite the first slot of the last cluster. */
  lemma {:induction false} PutOver(all: seq<Slot>, k: nat, free: nat, w: seq<Slot>, c: nat)
    requires k < |all| && 0 < c <= |all| && k + |w| > Most(all, free, c)
    ensures Over(Put(all, k, free, w, c), Most(all, free, c), k, w, c)
    decreases |w|
  {
    hide Over, Among;
    var r, n, b := Put(all, k, free, w, c), Most(all, free, c), all[k := w[0]];
    if k + 1 < |b| {
      PutOver(b, k + 1, free, w[1..], c);
      OverNext(r, n, k, w, c);
    } else if free > 0 {
      MulSucc(free - 1, c);
      PutOver(b + Blanks(c), k + 1, free - 1, w[1..], c);
      assert Most(b + Blanks(c), free - 1, c) == n;
      OverNext(r, n, k, w, c);
    } else {
      OverLast(b, k, w, c);
    }
  }

  lemma OverLast(b: seq<Slot>, k: nat, w: seq<Slot>, c: nat)
    requires k + 1 == |b| && 0 < c <= |b| && |w| > 1
    ensures Over(Put(b, |b| - c, 0, w[1..], c), |b|, k, w, c)
  {
    hide Among, Put;
    LapOver(b, w[1..], c);
    AmongNext(w, 0, Put(b, |b| - c, 0, w[1..], c)[|b| - c]);
  }

  /** A full volume, a directory of one cluster of sixteen slots with one left, and a name of two entries:
      the second takes the place of the first file. */
  lemma SlotLost(x: Slot, long: Slot, short: Slot)
    requires ShortSlot(x) && short != x
    ensures var all := seq(15, _ => x) + [BLANK];
      && EndsCleanly(all) && Scan(all, 0, 0, 2) == (15, false)
      && Put(all, 15, 0, [long, short], 16) == [short] + seq(14, _ => x) + [long]
      && Live(all[0]) && Put(all, 15, 0, [long, short], 16)[0] != all[0]
  {
    var all := seq(15, _ => x) + [BLANK];
    LiveScan(all, x, 0);
    var w := [long, short];
    var b := all[15 := long];
    assert Put(all, 15, 0, w, 16) == Put(b, 0, 0, w[1..], 16);
    assert w[1..] == [short];
    assert Put(b, 0, 0, [short], 16) == Put(b[0 := short], 1, 0, [], 16);
  }

  lemma {:induction false} LiveScan(all: seq<Slot>, x: Slot, j: nat)
    requires all == seq(15, _ => x) + [BLANK] && Live(x) && j <= 15
    ensures Scan(all, j, 0, 2) == (15, false)
    decreases 15 - j
  {
    if j < 15 {
      assert all[j] == x;
      LiveScan(all, x, j + 1);
    }
  }

  // ---- The fixed root directory -----------------------------------------------------------

  /** The same without clusters: fat_write stores nothing past the end. */
  function PutFixed(all: seq<Slot>, k: nat, w: seq<Slot>): (r: seq<Slot>)
    requires k <= |all|
    ensures |r| == |all|
    decreases |w|
  {
    if w == [] || k == |all| then all else PutFixed(all[k := w[0]], k + 1, w[1..])
  }

  lemma {:induction false} PutFixedIff(all: seq<Slot>, k: nat, w: seq<Slot>)
    requires k <= |all|
    ensures Placed(all, PutFixed(all, k, w), k, w) <==> k + |w| <= |all|
    decreases |w|
  {
    var r := PutFixed(all, k, w);
    if w == [] {
      assert r[k..k] == w;
    } else if k < |all| {
      PutFixedIff(all[k := w[0]], k + 1, w[1..]);
      if k + |w| <= |all| {
        PlacedOne(all, all[k := w[0]], r, k, w);
      }
    }
  }

  /** The slots of a directory after writing `w` from slot `k` on. */
  function Filled(root: bool, all: seq<Slot>, k: nat, free: nat, w: seq<Slot>, c: nat): (r: seq<Slot>) {
    if root && k <= |all| then PutFixed(all, k, w)
    else if !root && k < |all| && 0 < c <= |all| then Put(all, k, free, w, c)
    else all
  }

  /** The `n` slots from `k` on end inside the directory and what it can grow to. */
  predicate Fits(root: bool, all: seq<Slot>, k: nat, free: nat, n: nat, c: nat) {
    k + n <= if root then |all| else Most(all, free, c)
  }

  lemma FilledSize(root: bool, all: seq<Slot>, k: nat, free: nat, w: seq<Slot>, c: nat)
    ensures |all| <= |Filled(root, all, k, free, w, c)| <= if root then |all| else Most(all, free, c)
  {
  }

  lemma FilledIff(root: bool, all: seq<Slot>, k: nat, free: nat, w: seq<Slot>, c: nat)
    requires if root then k <= |all| else k < |all| && 0 < c <= |all|
    ensures Placed(all, Filled(root, all, k, free, w, c), k, w) <==> Fits(root, all, k, free, |w|, c)
  {
    if root { PutFixedIff(all, k, w); } else { PutIff(all, k, free, w, c); }
  }

  lemma FilledOver(all: seq<Slot>, k: nat, free: nat, w: seq<Slot>, c: nat)
    requires k < |all| && 0 < c <= |all| && !Fits(false, all, k, free, |w|, c)
    ensures Over(Filled(false, all, k, free, w, c), Most(all, free, c), k, w, c)
  {
    PutOver(all, k, free, w, c);
  }

  /** One write in a chain of clusters: where it leaves slots, place and free clusters. */
  ghost predicate Moved(all: seq<Slot>, k: nat, free: nat, all': seq<Slot>, k': nat, free': nat, s: Slot, c: nat) {
    && k < |all| && 0 < c <= |all|
    && var b := all[k := s];
       if k + 1 < |b| then all' == b && k' == k + 1 && free' == free
       else if free > 0 then all' == b + Blanks(c) && k' == k + 1 && free' == free - 1
       else all' == b && k' == |b| - c && free' == 0
  }

  lemma MovedPut(all: seq<Slot>, k: nat, free: nat, all': seq<Slot>, k': nat, free': nat, w: seq<Slot>, i: nat, c: nat)
    requires i < |w| && Moved(all, k, free, all', k', free', w[i], c)
    ensures k' < |all'| && c <= |all'|
    ensures Filled(false, all, k, free, w[i..], c) == Filled(false, all', k', free', w[i + 1..], c)
  {
    assert w[i..][0] == w[i] && w[i..][1..] == w[i + 1..];
  }

  lemma FixedPut(all: seq<Slot>, k: nat, free: nat, free': nat, w: seq<Slot>, i: nat, c: nat)
    requires i < |w| && k <= |all|
    ensures k < |all| ==> Filled(true, all, k, free, w[i..], c) == Filled(true, all[k := w[i]], k + 1, free', w[i + 1..], c)
    ensures k == |all| ==> Filled(true, all, k, free, w[i..], c) == all
  {
    assert w[i..][0] == w[i] && w[i..][1..] == w[i + 1..];
  }

  /** After `i` slots of `w` the rest of `w` still leads from here to where all of `w` leads from the start. */
  ghost predicate Underway(root: bool, all0: seq<Slot>, k0: nat, free0: nat, w: seq<Slot>, i: nat, all: seq<Slot>, k: nat, free: nat, c: nat) {
    && i <= |w| && Filled(root, all0, k0, free0, w, c) == Filled(root, all, k, free, w[i..], c)
    && (root ==> k == k0 + i <= |all| == |all0|)
  }

  lemma SetOut(root: bool, all: seq<Slot>, k: nat, free: nat, w: seq<Slot>, c: nat)
    requires root ==> k <= |all|
    ensures Underway(root, all, k, free, w, 0, all, k, free, c)
  {
    assert w[0..] == w;
  }

  lemma OneMoved(root: bool, all0: seq<Slot>, k0: nat, free0: nat, w: seq<Slot>, i: nat,
      all: seq<Slot>, k: nat, free: nat, all': seq<Slot>, k': nat, free': nat, c: nat)
    requires Underway(root, all0, k0, free0, w, i, all, k, free, c) && i < |w|
    requires if root then k < |all| && all' == all[k := w[i]] && k' == k + 1 else Moved(all, k, free, all', k', free', w[i], c)
    ensures Underway(root, all0, k0, free0, w, i + 1, all', k', free', c)
  {
    hide Filled, Moved;
    if root { FixedPut(all, k, free, free', w, i, c); } else { MovedPut(all, k, free, all', k', free', w, i, c); }
  }

  lemma Arrived(root: bool, all0: seq<Slot>, k0: nat, free0: nat, w: seq<Slot>, i: nat, all: seq<Slot>, k: nat, free: nat, c: nat)
    requires Underway(root, all0, k0, free0, w, i, all, k, free, c) && (i == |w| || (root && k >= |all|))
    ensures all == Filled(root, all0, k0, free0, w, c) && (root ==> (i == |w| <==> k0 + |w| <= |all0|))
  {
    if i < |w| {
      FixedPut(all, k, free, free, w, i, c);
    } else {
      assert w[i..] == [];
    }
  }

  // ---- Contents ---------------------------------------------------------------------------

  /** Contents overwritten by one slot and grown by zeros. */
  lemma SlotStep(a: seq<byte>, b: seq<byte>, k: nat, s: Slot, clear: bool)
    requires |a| % SLOT == 0 && |b| % SLOT == 0 && SLOT * (k + 1) <= |a|
    requires Overwritten(a, b, SLOT * k, s, clear) && (clear || |b| == |a|)
    ensures k < |SlotsFrom(a, 0)| && SlotsFrom(b, 0) == SlotsFrom(a, 0)[k := s] + Blanks(|b| / SLOT - |a| / SLOT)
  {
    hide SlotsFrom;
    SlotFits(|a|, k);
    var p, q := SlotsFrom(a, 0), SlotsFrom(b, 0);
    forall j | 0 <= j < |q|
      ensures q[j] == (p[k := s] + Blanks(|b| / SLOT - |a| / SLOT))[j]
    {
      SlotFits(|b|, j);
      SlotFits(|a|, j);
      SlotFirst(b, j);
      if j < |p| {
        SlotFirst(a, j);
        OldSlot(a, b, k, s, clear, j);
      } else {
        NewSlot(a, b, k, s, j);
      }
    }
  }

  lemma OldSlot(a: seq<byte>, b: seq<byte>, k: nat, s: Slot, clear: bool, j: nat)
    requires Overwritten(a, b, SLOT * k, s, clear) && SLOT * (j + 1) <= |a| <= |b| && SLOT * (k + 1) <= |a|
    ensures SlotOf(b, SLOT * j) == if j == k then s else SlotOf(a, SLOT * j)
  {
    var o := SLOT * j;
    assert j != k ==> o + SLOT <= SLOT * k || SLOT * k + SLOT <= o;
    assert SlotOf(b, o) == if j == k then s else SlotOf(a, o);
  }

  lemma NewSlot(a: seq<byte>, b: seq<byte>, k: nat, s: Slot, j: nat)
    requires Overwritten(a, b, SLOT * k, s, true) && |a| % SLOT == 0 && |a| <= SLOT * j && SLOT * (j + 1) <= |b| && SLOT * (k + 1) <= |a|
    ensures SlotOf(b, SLOT * j) == BLANK
  {
    var o := SLOT * j;
    assert SlotOf(b, o) == BLANK;
  }
}
