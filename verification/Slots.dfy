/** Directory contents as sequences of 32-byte slots. */
module Slots {
  import opened Bytes
  import opened Growth
  import opened LongNames

  /** The slot at byte `at`. */
  function SlotOf(data: seq<byte>, at: nat): (s: Slot)
    requires at + SLOT <= |data|
  {
    data[at..at + SLOT]
  }

  /** The slots of a directory's contents from slot `k` on. */
  function SlotsFrom(data: seq<byte>, k: nat): (r: seq<Slot>)
    requires SLOT * k <= |data| && |data| % SLOT == 0
    ensures |r| == |data| / SLOT - k
  {
    seq<Slot>(|data| / SLOT - k, j requires 0 <= j < |data| / SLOT - k => SlotOf(data, SLOT * (k + j)))
  }

  lemma SlotAt(b: seq<byte>, k: nat, j: nat)
    requires |b| % SLOT == 0 && SLOT * (k + j + 1) <= |b|
    ensures SlotsFrom(b, k)[j] == SlotOf(b, SLOT * k + SLOT * j)
  {
    assert SLOT * (k + j) == SLOT * k + SLOT * j;
  }

  /** One slot fewer after each read; none means the end of the fixed root directory. */
  lemma AheadShrinks(data: seq<byte>, pos: nat)
    requires |data| % SLOT == 0 && pos % SLOT == 0 && pos <= |data|
    ensures SLOT * (pos / SLOT) == pos
    ensures pos == |data| ==> SlotsFrom(data, pos / SLOT) == []
    ensures pos < |data| ==>
      && pos + SLOT <= |data| && SLOT * ((pos + SLOT) / SLOT) == pos + SLOT
      && SlotsFrom(data, pos / SLOT) != [] && SlotsFrom(data, pos / SLOT)[0] == SlotOf(data, pos)
      && SlotsFrom(data, pos / SLOT)[1..] == SlotsFrom(data, (pos + SLOT) / SLOT)
  {
  }

  lemma SlotsSplit(b: seq<byte>, k: nat, n: nat)
    requires |b| % SLOT == 0 && SLOT * (k + n) <= |b|
    ensures SlotsFrom(b, k) == SlotsFrom(b, k)[..n] + SlotsFrom(b, k + n)
  {
  }

  predicate Live(s: Slot) { s[0] != 0 && s[0] != DELETED }

  /** Some slot at or after the position ends the directory. */
  ghost predicate HasEnd(slots: seq<Slot>) { exists k :: 0 <= k < |slots| && slots[k][0] == 0 }

  // ---- Room for new entries ---------------------------------------------------------------

  /** Nothing is in use behind an end marker. */
  ghost predicate EndsCleanly(slots: seq<Slot>) {
    forall i, j :: 0 <= i < j < |slots| && slots[i][0] == 0 ==> !Live(slots[j])
  }

  /** A slot in use lies among the `n` from `k` on. */
  ghost predicate Blocked(slots: seq<Slot>, k: nat, n: nat) {
    exists m :: k <= m < k + n && m < |slots| && Live(slots[m])
  }

  /** Slot `k` is the first from which `n` slots hold nothing in use. */
  ghost predicate Room(slots: seq<Slot>, k: nat, n: nat) {
    && k <= |slots| && (forall e :: 0 <= e < k ==> slots[e][0] != 0 && Blocked(slots, e, n))
    && (EndsCleanly(slots) ==> !Blocked(slots, k, n))
  }

  /** Slots `a` to `b` are deleted ones, no end marker came before, and no earlier start has room. */
  ghost predicate Scanned(slots: seq<Slot>, a: int, b: int, n: nat) {
    && 0 <= a <= b <= |slots|
    && (forall k :: 0 <= k < b ==> slots[k][0] != 0)
    && (forall k :: a <= k < b ==> slots[k][0] == DELETED)
    && (forall e :: 0 <= e < a ==> Blocked(slots, e, n))
  }

  lemma ScannedNothing(slots: seq<Slot>, n: nat)
    ensures Scanned(slots, 0, 0, n)
  {
  }

  lemma ScannedDeleted(slots: seq<Slot>, a: int, b: int, n: nat)
    requires Scanned(slots, a, b, n) && b < |slots| && slots[b][0] == DELETED
    ensures Scanned(slots, a, b + 1, n)
  {
  }

  lemma ScannedLive(slots: seq<Slot>, a: int, b: int, n: nat)
    requires Scanned(slots, a, b, n) && b < |slots| && Live(slots[b]) && b - a < n
    ensures Scanned(slots, b + 1, b + 1, n)
  {
    forall e | 0 <= e < b + 1 ensures Blocked(slots, e, n) {
      if e >= a { assert Live(slots[b]); }
    }
  }

  lemma ScannedRoom(slots: seq<Slot>, a: int, b: int, n: nat)
    requires Scanned(slots, a, b, n)
    requires b - a >= n || b == |slots| || slots[b][0] == 0
    ensures Room(slots, a, n)
  {
  }

  /** `n` deleted slots in a row. */
  ghost predicate HasRun(slots: seq<Slot>, n: nat) {
    exists k :: DeletedRun(slots, k, n)
  }

  ghost predicate DeletedRun(slots: seq<Slot>, k: int, n: nat) {
    0 <= k && k + n <= |slots| && forall m :: k <= m < k + n ==> slots[m][0] == DELETED
  }

  /** The scan of _fat_dir_seek_empty: where it settles, and whether it read past the last slot. */
  function Scan(slots: seq<Slot>, j: nat, i: nat, n: nat): (r: (nat, bool))
    requires i <= j <= |slots|
    decreases |slots| - j
  {
    if j == |slots| then (j - i, true)
    else if slots[j][0] == 0 then (j - i, false)
    else if slots[j][0] == DELETED then (if i + 1 == n then (j - i, false) else Scan(slots, j + 1, i + 1, n))
    else Scan(slots, j + 1, 0, n)
  }

  /** It reads past the last slot exactly when there is neither an end marker nor room among the
      deleted slots. */
  lemma {:induction false} ScanRunsOff(slots: seq<Slot>, j: nat, i: nat, n: nat)
    requires i <= j <= |slots| && i < n && Scanned(slots, j - i, j, n)
    ensures Scan(slots, j, i, n).1 <==> !HasEnd(slots) && !HasRun(slots, n)
    decreases |slots| - j
  {
    if j == |slots| {
      NoRun(slots, j - i, n);
    } else if slots[j][0] == 0 {
    } else if slots[j][0] == DELETED {
      ScannedDeleted(slots, j - i, j, n);
      if i + 1 == n {
        assert DeletedRun(slots, j - i, n);
      } else {
        ScanRunsOff(slots, j + 1, i + 1, n);
      }
    } else {
      ScannedLive(slots, j - i, j, n);
      ScanRunsOff(slots, j + 1, 0, n);
    }
  }

  /** A whole scan without room finds no run either. */
  lemma NoRun(slots: seq<Slot>, a: int, n: nat)
    requires Scanned(slots, a, |slots|, n) && |slots| - a < n
    ensures !HasEnd(slots) && !HasRun(slots, n)
  {
    forall k: int
      ensures !DeletedRun(slots, k, n)
    {
      if 0 <= k < a {
        assert Blocked(slots, k, n);
      }
    }
  }

  lemma {:induction false} ScanInside(slots: seq<Slot>, j: nat, i: nat, n: nat)
    requires i <= j <= |slots|
    ensures Scan(slots, j, i, n).0 <= |slots| && (!Scan(slots, j, i, n).1 ==> Scan(slots, j, i, n).0 < |slots|)
    decreases |slots| - j
  {
    if j < |slots| && slots[j][0] == DELETED && i + 1 != n {
      ScanInside(slots, j + 1, i + 1, n);
    } else if j < |slots| && Live(slots[j]) {
      ScanInside(slots, j + 1, 0, n);
    }
  }

  /** The scan of a chained directory reaches the end of the chain if and only if it has neither an
      end marker nor a long enough run of deleted slots. */
  lemma ScanEnds(slots: seq<Slot>, n: nat)
    requires n > 0
    ensures Scan(slots, 0, 0, n).1 <==> !HasEnd(slots) && !HasRun(slots, n)
  {
    ScannedNothing(slots, n);
    ScanRunsOff(slots, 0, 0, n);
  }

  /** A cluster of slots in use is one without an end. */
  lemma FullDirectory(x: Slot)
    requires Live(x)
    ensures Scan(seq(16, _ => x), 0, 0, 1).1
  {
    var all := seq(16, _ => x);
    assert forall j :: 0 <= j < 16 ==> all[j] == x;
    ScanEnds(all, 1);
    LiveRun(all);
  }

  lemma LiveRun(all: seq<Slot>)
    requires forall j :: 0 <= j < |all| ==> Live(all[j])
    ensures !HasRun(all, 1)
  {
    forall k: int
      ensures !DeletedRun(all, k, 1)
    {
      if 0 <= k < |all| { assert Live(all[k]); }
    }
  }

  /** The scan has passed `j` slots, the last `i` of them deleted, and goes on. */
  ghost predicate Scanning(all: seq<Slot>, j: nat, i: nat, n: nat) {
    && i <= j <= |all| && i < n && Scanned(all, j - i, j, n) && Scan(all, 0, 0, n) == Scan(all, j, i, n)
  }

  lemma ScanningStart(all: seq<Slot>, n: nat)
    requires n > 0
    ensures Scanning(all, 0, 0, n)
  {
  }

  /** One slot on: over a live one, over a deleted one, or to the place found. */
  lemma ScanningNext(all: seq<Slot>, j: nat, i: nat, n: nat)
    requires Scanning(all, j, i, n)
    ensures i <= j <= |all| && i < n
    ensures j < |all| && Live(all[j]) ==> Scanning(all, j + 1, 0, n)
    ensures j < |all| && all[j][0] == DELETED && i + 1 < n ==> Scanning(all, j + 1, i + 1, n)
    ensures j == |all| || all[j][0] == 0 || (all[j][0] == DELETED && i + 1 == n) ==>
      Room(all, j - i, n) && Scan(all, 0, 0, n) == (j - i, j == |all|)
  {
    hide Room;
    if j == |all| || all[j][0] == 0 {
      ScannedRoom(all, j - i, j, n);
    } else if all[j][0] == DELETED {
      ScannedDeleted(all, j - i, j, n);
      if i + 1 == n { ScannedRoom(all, j - i, j + 1, n); }
    } else {
      ScannedLive(all, j - i, j, n);
    }
  }

  lemma SlotFits(n: nat, j: nat)
    requires n % SLOT == 0
    ensures j < n / SLOT <==> SLOT * (j + 1) <= n
  {
  }

  lemma SlotFirst(b: seq<byte>, j: nat)
    requires |b| % SLOT == 0 && SLOT * (j + 1) <= |b|
    ensures SlotsFrom(b, 0)[j] == SlotOf(b, SLOT * j)
  {
    SlotAt(b, 0, j);
  }

  // ---- The listing across a creation -------------------------------------------------------

  /** The short entries a reader meets, in order, up to the end marker. */
  function Listed(slots: seq<Slot>): seq<Slot> {
    if slots == [] || slots[0][0] == 0 then [] else (if ShortSlot(slots[0]) then [slots[0]] else []) + Listed(slots[1..])
  }

  lemma {:induction false} ListedApart(a: seq<Slot>, b: seq<Slot>)
    requires forall j :: 0 <= j < |a| ==> a[j][0] != 0
    ensures Listed(a + b) == Listed(a) + Listed(b)
    decreases |a|
  {
    if a == [] {
      assert a + b == b;
    } else {
      assert (a + b)[1..] == a[1..] + b;
      ListedApart(a[1..], b);
    }
  }

  lemma {:induction false} ListedNothing(slots: seq<Slot>)
    requires forall j :: 0 <= j < |slots| ==> !Live(slots[j])
    ensures Listed(slots) == []
    decreases |slots|
  {
    if slots != [] && slots[0][0] != 0 {
      ListedNothing(slots[1..]);
    }
  }

  /** Long entries and one short entry list as the short entry. */
  ghost predicate NewEntry(w: seq<Slot>) {
    && w != [] && ShortSlot(w[|w| - 1])
    && forall j :: 0 <= j < |w| - 1 ==> w[j][0] != 0 && Attr(w[j]) == ATTR_LONG
  }

  lemma {:induction false} LongSlotsKind(mem: seq<byte>, i: nat, last: bool, sum: byte)
    requires 13 * i + 13 <= |mem| && i < 20
    ensures forall s :: s in LongSlots(mem, i, last, sum) ==> s[0] != 0 && Attr(s) == ATTR_LONG
    decreases i
  {
    hide LongSlot;
    LongSlotFields(mem, i, last, sum);
    if i > 0 {
      LongSlotsKind(mem, i - 1, false, sum);
    }
  }

  /** So do the entries of a new file. */
  lemma NameEntry(name: seq<byte>, mem: seq<byte>, short: Slot)
    requires NameInMemory(name, mem) && ShortSlot(short)
    ensures NewEntry(EntrySlots(name, mem, short))
  {
    hide LongSlots, Checksum, ShortSlot;
    LongSlotsKind(mem, |name| / 13, true, Checksum(SName(short)));
    var w := EntrySlots(name, mem, short);
    assert forall j :: 0 <= j < |w| - 1 ==> w[j] in LongSlots(mem, |name| / 13, true, Checksum(SName(short)));
  }

  lemma {:induction false} ListedNew(w: seq<Slot>, rest: seq<Slot>)
    requires NewEntry(w)
    ensures Listed(w + rest) == [w[|w| - 1]] + Listed(rest)
    decreases |w|
  {
    assert (w + rest)[1..] == w[1..] + rest;
    if |w| > 1 {
      ListedNew(w[1..], rest);
    } else {
      assert w[1..] + rest == rest;
    }
  }

  /** `b` is the directory `a` with `w` at slot `k`; any slots it gained are end markers. */
  ghost predicate Placed(a: seq<Slot>, b: seq<Slot>, k: nat, w: seq<Slot>) {
    && k + |w| <= |b| && |a| <= |b| && k <= |a| && b[k..k + |w|] == w
    && (forall j :: 0 <= j < |a| && !(k <= j < k + |w|) ==> b[j] == a[j])
    && (forall j :: |a| <= j < |b| && k + |w| <= j ==> b[j][0] == 0)
  }

  /** A tail behind room in which nothing is in use lists the same, on its own or with that room. */
  lemma TailListed(a: seq<Slot>, b: seq<Slot>, k: nat, w: seq<Slot>)
    requires Placed(a, b, k, w) && EndsCleanly(a) && !Blocked(a, k, |w|)
    ensures Listed(b[k + |w|..]) == Listed(a[k..])
  {
    hide Live, Placed, Listed;
    var gap, rest, more := TailParts(a, b, k, w);
    GapListed(a, k, gap, rest);
    ListedMore(rest, more);
    if exists j :: 0 <= j < |gap| && gap[j][0] == 0 {
      ListedNothing(a[k..]);
      ListedNothing(rest);
    } else {
      ListedApart(gap, rest);
      ListedNothing(gap);
    }
  }

  /** The room, what follows it in the old directory, and the end markers gained. */
  lemma TailParts(a: seq<Slot>, b: seq<Slot>, k: nat, w: seq<Slot>) returns (gap: seq<Slot>, rest: seq<Slot>, more: seq<Slot>)
    requires Placed(a, b, k, w) && !Blocked(a, k, |w|)
    ensures k <= |a| && k + |w| <= |b| && a[k..] == gap + rest && b[k + |w|..] == rest + more
    ensures forall j :: 0 <= j < |gap| ==> !Live(gap[j])
    ensures forall j :: 0 <= j < |more| ==> more[j][0] == 0
  {
    var n := |w|;
    var m := if k + n <= |a| then k + n else |a|;
    gap, rest, more := a[k..m], a[m..], b[if k + n <= |a| then |a| else k + n..];
    forall j | 0 <= j < |gap|
      ensures !Live(gap[j])
    {
      assert gap[j] == a[k + j];
    }
    assert a[k..] == gap + rest;
    assert b[k + n..] == rest + more;
  }

  /** Behind an end marker in the room nothing is in use. */
  lemma GapListed(a: seq<Slot>, k: nat, gap: seq<Slot>, rest: seq<Slot>)
    requires EndsCleanly(a) && k <= |a| && a[k..] == gap + rest
    requires forall j :: 0 <= j < |gap| ==> !Live(gap[j])
    ensures (exists j :: 0 <= j < |gap| && gap[j][0] == 0) ==>
      && (forall j :: 0 <= j < |rest| ==> !Live(rest[j]))
      && (forall j :: 0 <= j < |a[k..]| ==> !Live(a[k..][j]))
  {
    if exists j :: 0 <= j < |gap| && gap[j][0] == 0 {
      var j :| 0 <= j < |gap| && gap[j][0] == 0;
      assert a[k + j] == a[k..][j] == gap[j];
      forall i | 0 <= i < |rest|
        ensures !Live(rest[i])
      {
        assert a[k + |gap| + i] == a[k..][|gap| + i] == rest[i];
      }
    }
  }

  lemma {:induction false} ListedMore(a: seq<Slot>, more: seq<Slot>)
    requires forall j :: 0 <= j < |more| ==> more[j][0] == 0
    ensures Listed(a + more) == Listed(a)
    decreases |a|
  {
    if a == [] {
      assert a + more == more;
    } else {
      assert (a + more)[1..] == a[1..] + more;
      ListedMore(a[1..], more);
    }
  }

  /** `b` holds `w` at slot `k` and every slot in use in `a`; its listing is that of `a` with the
      last slot of `w` put in. */
  ghost predicate Created(a: seq<Slot>, b: seq<Slot>, k: nat, w: seq<Slot>) {
    && k <= |a| <= |b| && k + |w| <= |b| && b[k..k + |w|] == w && w != []
    && (forall j :: 0 <= j < |a| && Live(a[j]) ==> b[j] == a[j])
    && Listed(a) == Listed(a[..k]) + Listed(a[k..])
    && Listed(b) == Listed(a[..k]) + [w[|w| - 1]] + Listed(a[k..])
  }

  /** A creation puts exactly its entry into the listing, where it found room, and every slot in use
      stays. */
  lemma ListedCreate(a: seq<Slot>, b: seq<Slot>, k: nat, w: seq<Slot>)
    requires Placed(a, b, k, w) && EndsCleanly(a) && Room(a, k, |w|) && NewEntry(w)
    ensures Created(a, b, k, w)
  {
    hide Listed, Live, NewEntry;
    NewSome(w);
    ListedParts(a, k);
    ListedPlaced(a, b, k, w);
    ListedNew(w, b[k + |w|..]);
    TailListed(a, b, k, w);
    LiveStay(a, b, k, w);
  }

  lemma NewSome(w: seq<Slot>)
    requires NewEntry(w)
    ensures w != []
  {
  }

  lemma ListedParts(a: seq<Slot>, k: nat)
    requires k <= |a| && forall j :: 0 <= j < k ==> a[j][0] != 0
    ensures Listed(a) == Listed(a[..k]) + Listed(a[k..])
  {
    assert a == a[..k] + a[k..];
    ListedApart(a[..k], a[k..]);
  }

  lemma ListedPlaced(a: seq<Slot>, b: seq<Slot>, k: nat, w: seq<Slot>)
    requires Placed(a, b, k, w) && forall j :: 0 <= j < k ==> a[j][0] != 0
    ensures Listed(b) == Listed(a[..k]) + Listed(w + b[k + |w|..])
  {
    hide Listed;
    assert b[..k] == a[..k];
    assert b[k..] == w + b[k + |w|..];
    ListedParts(b, k);
  }

  lemma LiveStay(a: seq<Slot>, b: seq<Slot>, k: nat, w: seq<Slot>)
    requires Placed(a, b, k, w) && !Blocked(a, k, |w|)
    ensures forall j :: 0 <= j < |a| && Live(a[j]) ==> b[j] == a[j]
  {
  }
}
