/** The names that reading a whole directory finds, and what a creation does to them. */
module Listing {
  import opened Bytes
  import opened LongNames
  import opened Slots

  datatype Name = Name(sname: seq<byte>, attr: byte, long: seq<byte>)

  /** What one fat_readdir after the other finds, slot by slot, from reader state `p` on: up to the end
      marker, or a long entry that points outside d_name. */
  function Names(slots: seq<Slot>, p: Partial): seq<Name>
    requires |p.name| == NAME_SIZE && p.ok
    decreases |slots|
  {
    if slots == [] || slots[0][0] == 0 then []
    else
      var q := Step(p, slots[0]);
      Shown(p, slots[0]) + if q.ok then Names(slots[1..], q) else []
  }

  /** The reader after one slot that is not the end marker. */
  function Step(p: Partial, s: Slot): (q: Partial)
    requires |p.name| == NAME_SIZE
    ensures |q.name| == NAME_SIZE
  {
    if s[0] == DELETED || Attr(s) == ATTR_VOLUME_ID then p
    else if Attr(s) == ATTR_LONG then TakeLong(p, s)
    else Start(p.name)
  }

  function Shown(p: Partial, s: Slot): seq<Name> {
    if ShortSlot(s) then [Name(SName(s), Attr(s), if p.csum == Checksum(SName(s)) then CString(p.name) else [])] else []
  }

  /** The reader after a run of slots without an end marker. */
  function After(slots: seq<Slot>, p: Partial): (q: Partial)
    requires |p.name| == NAME_SIZE
    ensures |q.name| == NAME_SIZE
    decreases |slots|
  {
    if slots == [] || !p.ok then p else After(slots[1..], Step(p, slots[0]))
  }

  // ---- d_name's old contents do not matter --------------------------------------------------

  /** Readers that differ at most in a d_name that will be overwritten before it is shown. */
  ghost predicate Alike(p: Partial, q: Partial) {
    && |p.name| == |q.name| == NAME_SIZE && p.ok == q.ok && p.csum == q.csum && (p.csum == NO_SUM || p.name == q.name)
  }

  lemma {:induction false} SameStop(n: seq<byte>, m: seq<byte>, at: nat, u: seq<nat>)
    requires |n| == |m|
    ensures Convert(n, at, u).why == Convert(m, at, u).why
    decreases |u|
  {
    if u != [] && u[0] <= 127 && at < |n| && u[0] != 0 {
      SameStop(n[at := u[0]], m[at := u[0]], at + 1, u[1..]);
    }
  }

  lemma LongAlike(p: Partial, q: Partial, s: Slot)
    requires Alike(p, q)
    ensures Alike(TakeLong(p, s), TakeLong(q, s))
  {
    hide Convert, Units;
    if p.name != q.name && Ord(s) / LAST_LONG % 2 == 0 && Ord(s) % LAST_LONG != 0 {
      var i := (Ord(s) % LAST_LONG - 1) * 13;
      SameStop(p.name, q.name, i, Units(s, 1, 5));
      var a, a' := Convert(p.name, i, Units(s, 1, 5)).name, Convert(q.name, i, Units(s, 1, 5)).name;
      SameStop(a, a', i + 5, Units(s, 14, 6));
      SameStop(Convert(a, i + 5, Units(s, 14, 6)).name, Convert(a', i + 5, Units(s, 14, 6)).name, i + 11, Units(s, 28, 2));
    }
  }

  lemma StepAlike(p: Partial, q: Partial, s: Slot)
    requires Alike(p, q)
    ensures Alike(Step(p, s), Step(q, s)) && Shown(p, s) == Shown(q, s)
  {
    hide TakeLong, Checksum, CString;
    LongAlike(p, q, s);
    SumBound(SName(s));
  }

  /** No checksum is the mark for none. */
  lemma SumBound(sname: seq<byte>)
    requires |sname| == 11
    ensures Checksum(sname) != NO_SUM
  {
  }

  lemma {:induction false} NamesAlike(slots: seq<Slot>, p: Partial, q: Partial)
    requires Alike(p, q) && p.ok
    ensures Names(slots, p) == Names(slots, q)
    decreases |slots|
  {
    hide Step, Shown;
    if slots != [] && slots[0][0] != 0 {
      StepAlike(p, q, slots[0]);
      if Step(p, slots[0]).ok {
        NamesAlike(slots[1..], Step(p, slots[0]), Step(q, slots[0]));
      }
    }
  }

  /** The listing is what calling fat_readdir again and again finds, whatever each call leaves in
      d_name. */
  lemma {:induction false} NamesDecode(slots: seq<Slot>, p: Partial, junk: seq<byte>)
    requires |p.name| == NAME_SIZE && p.ok && |junk| == NAME_SIZE
    ensures match Decode(slots, p)
      case Found(sname, attr, long, used) =>
        0 < used <= |slots| && Names(slots, p) == [Name(sname, attr, long)] + Names(slots[used..], Start(junk))
      case _ => Names(slots, p) == []
    decreases |slots|
  {
    hide TakeLong, Checksum, CString;
    if slots != [] && slots[0][0] != 0 {
      var q := Step(p, slots[0]);
      if ShortSlot(slots[0]) {
        NamesAlike(slots[1..], q, Start(junk));
      } else if q.ok {
        NamesDecode(slots[1..], q, junk);
        if Decode(slots[1..], q).Found? {
          assert slots[1..][Decode(slots[1..], q).used..] == slots[Decode(slots[1..], q).used + 1..];
        }
      }
    }
  }

  // ---- A creation -------------------------------------------------------------------------

  lemma {:induction false} NamesApart(a: seq<Slot>, b: seq<Slot>, p: Partial)
    requires |p.name| == NAME_SIZE && p.ok && After(a, p).ok && forall j :: 0 <= j < |a| ==> a[j][0] != 0
    ensures Names(a + b, p) == Names(a, p) + Names(b, After(a, p))
    decreases |a|
  {
    hide Step, Shown;
    if a == [] {
      assert a + b == b;
    } else {
      assert (a + b)[1..] == a[1..] + b;
      assert Step(p, a[0]).ok;
      NamesApart(a[1..], b, Step(p, a[0]));
    }
  }

  lemma {:induction false} NamesNothing(slots: seq<Slot>, p: Partial)
    requires |p.name| == NAME_SIZE && p.ok && forall j :: 0 <= j < |slots| ==> !Live(slots[j])
    ensures Names(slots, p) == []
    ensures (forall j :: 0 <= j < |slots| ==> slots[j][0] != 0) ==> After(slots, p) == p
    decreases |slots|
  {
    hide TakeLong;
    if slots != [] && slots[0][0] != 0 {
      assert !Live(slots[0]);
      NamesNothing(slots[1..], p);
    }
  }

  lemma {:induction false} NamesMore(a: seq<Slot>, more: seq<Slot>, p: Partial)
    requires |p.name| == NAME_SIZE && p.ok && forall j :: 0 <= j < |more| ==> more[j][0] == 0
    ensures Names(a + more, p) == Names(a, p)
    decreases |a|
  {
    hide Step, Shown;
    if a == [] {
      assert a + more == more;
    } else {
      assert (a + more)[1..] == a[1..] + more;
      if a[0][0] != 0 && Step(p, a[0]).ok {
        NamesMore(a[1..], more, Step(p, a[0]));
      }
    }
  }

  /** Behind the room the same names follow as from the room on. */
  lemma NamesTail(a: seq<Slot>, b: seq<Slot>, k: nat, w: seq<Slot>, p: Partial)
    requires Placed(a, b, k, w) && EndsCleanly(a) && !Blocked(a, k, |w|) && |p.name| == NAME_SIZE && p.ok
    ensures Names(b[k + |w|..], p) == Names(a[k..], p)
  {
    hide Live, Placed, Names, After;
    var gap, rest, more := TailParts(a, b, k, w);
    GapListed(a, k, gap, rest);
    NamesMore(rest, more, p);
    NamesNothing(gap, p);
    if exists j :: 0 <= j < |gap| && gap[j][0] == 0 {
      NamesNothing(a[k..], p);
      NamesNothing(rest, p);
    } else {
      NamesApart(gap, rest, p);
    }
  }

  lemma NamesNew(name: seq<byte>, mem: seq<byte>, short: Slot, p: Partial, junk: seq<byte>, rest: seq<Slot>)
    requires NameInMemory(name, mem) && ShortSlot(short) && |p.name| == NAME_SIZE && p.ok && |junk| == NAME_SIZE
    ensures Names(EntrySlots(name, mem, short) + rest, p) == [Name(SName(short), Attr(short), name)] + Names(rest, Start(junk))
  {
    hide Decode, Names, Checksum, LongSlots;
    var w := EntrySlots(name, mem, short);
    DecodeGroups(p, name, mem, |name| / 13, true, Checksum(SName(short)), short, rest);
    NamesDecode(w + rest, p, junk);
    assert (w + rest)[|w|..] == rest;
  }

  // ---- Long names that change hands -------------------------------------------------------

  /** A long entry that begins a name anew. */
  predicate Begins(s: Slot) {
    Live(s) && Attr(s) == ATTR_LONG && Ord(s) / LAST_LONG % 2 == 1
  }

  /** The long name collected so far will be shown for a short entry of `slots`: the next one has its
      checksum, and no new name begins before it. */
  predicate Lends(slots: seq<Slot>, q: Partial)
    requires |q.name| == NAME_SIZE
    decreases |slots|
  {
    && slots != [] && slots[0][0] != 0 && q.ok && q.csum != NO_SUM
    && if ShortSlot(slots[0]) then q.csum == Checksum(SName(slots[0])) && CString(q.name) != []
       else !Begins(slots[0]) && Lends(slots[1..], Step(q, slots[0]))
  }

  /** Two readers stop for a long entry alike, and go on alike where it begins a name. */
  lemma LongStops(p: Partial, q: Partial, s: Slot)
    requires |p.name| == |q.name| == NAME_SIZE && p.ok && q.ok
    ensures TakeLong(p, s).ok == TakeLong(q, s).ok
    ensures Ord(s) / LAST_LONG % 2 == 1 ==> TakeLong(p, s) == TakeLong(q, s)
    ensures Ord(s) / LAST_LONG % 2 == 0 && p.csum == NO_SUM ==> TakeLong(p, s).csum == NO_SUM
  {
    hide Convert, Units;
    if Ord(s) / LAST_LONG % 2 == 0 && Ord(s) % LAST_LONG != 0 {
      var i := (Ord(s) % LAST_LONG - 1) * 13;
      SameStop(p.name, q.name, i, Units(s, 1, 5));
      var a, a' := Convert(p.name, i, Units(s, 1, 5)).name, Convert(q.name, i, Units(s, 1, 5)).name;
      SameStop(a, a', i + 5, Units(s, 14, 6));
      SameStop(Convert(a, i + 5, Units(s, 14, 6)).name, Convert(a', i + 5, Units(s, 14, 6)).name, i + 11, Units(s, 28, 2));
    }
  }

  /** A reader in the middle of a name finds the same from here on as one that starts here, if and only if
      the name collected is lent to no short entry. */
  lemma {:induction false} NamesLent(slots: seq<Slot>, q: Partial, p: Partial)
    requires |p.name| == |q.name| == NAME_SIZE && p.ok && q.ok && p.csum == NO_SUM
    ensures Names(slots, q) == Names(slots, p) <==> !Lends(slots, q)
    decreases |slots|
  {
    hide TakeLong, Checksum, CString;
    if q.csum == NO_SUM {
      NamesAlike(slots, p, q);
    } else if slots != [] && slots[0][0] != 0 {
      var s := slots[0];
      if ShortSlot(s) {
        SumBound(SName(s));
        NamesAlike(slots[1..], Start(q.name), Start(p.name));
        assert Names(slots, q)[0] == Shown(q, s)[0] && Names(slots, p)[0] == Shown(p, s)[0];
      } else {
        if Attr(s) == ATTR_LONG { LongStops(p, q, s); }
        if Begins(s) {
          assert Step(q, s) == Step(p, s);
        } else if Step(q, s).ok {
          NamesLent(slots[1..], Step(q, s), Step(p, s));
          assert Names(slots, q) == Names(slots[1..], Step(q, s)) && Names(slots, p) == Names(slots[1..], Step(p, s));
        }
      }
    }
  }

  // ---- A creation and the names -----------------------------------------------------------

  /** The listing of `b` is that of `a` with `x` put in at slot `k`. */
  ghost predicate Inserted(a: seq<Slot>, b: seq<Slot>, k: nat, x: Name, p: Partial)
    requires |p.name| == NAME_SIZE && p.ok
  {
    && k <= |a| && After(a[..k], p).ok
    && Names(a, p) == Names(a[..k], p) + Names(a[k..], After(a[..k], p))
    && Names(b, p) == Names(a[..k], p) + [x] + Names(a[k..], After(a[..k], p))
  }

  /** A creation puts its name into the listing and changes no other if and only if long entries before the
      room lend their name to no short entry behind it: that entry would lose it. */
  lemma NamesCreate(a: seq<Slot>, b: seq<Slot>, k: nat, name: seq<byte>, mem: seq<byte>, short: Slot, junk: seq<byte>)
    requires NameInMemory(name, mem) && ShortSlot(short) && |junk| == NAME_SIZE
    requires var w := EntrySlots(name, mem, short); Placed(a, b, k, w) && EndsCleanly(a) && Room(a, k, |w|)
    requires After(a[..k], Start(junk)).ok
    ensures Names(b, Start(junk)) == Names(a[..k], Start(junk)) + [Name(SName(short), Attr(short), name)] + Names(a[k..], Start(junk))
    ensures Inserted(a, b, k, Name(SName(short), Attr(short), name), Start(junk)) <==> !Lends(a[k..], After(a[..k], Start(junk)))
  {
    hide Names, After, EntrySlots, Live, Blocked, NameInMemory, Step, EndsCleanly, Lends;
    var p, w := Start(junk), EntrySlots(name, mem, short);
    var q := After(a[..k], p);
    assert a == a[..k] + a[k..];
    NamesApart(a[..k], a[k..], p);
    NamesLent(a[k..], q, p);
    PlacedParts(a, b, k, w);
    NamesApart(a[..k], w + b[k + |w|..], p);
    NamesNew(name, mem, short, q, junk, b[k + |w|..]);
    NamesTail(a, b, k, w, p);
    SameTail(Names(a[..k], p) + [Name(SName(short), Attr(short), name)], Names(a[k..], p), Names(a[k..], q));
  }

  lemma SameTail(pre: seq<Name>, s: seq<Name>, t: seq<Name>)
    ensures pre + s == pre + t <==> s == t
  {
    assert (pre + s)[|pre|..] == s && (pre + t)[|pre|..] == t;
  }

  /** Nothing is lent at the beginning of a directory or behind a short entry. */
  lemma NothingLent(a: seq<Slot>, k: nat, p: Partial)
    requires k <= |a| && |p.name| == NAME_SIZE && p.ok && p.csum == NO_SUM && After(a[..k], p).ok
    requires k == 0 || ShortSlot(a[k - 1])
    ensures !Lends(a[k..], After(a[..k], p))
  {
    RestStart(a[..k], p);
  }

  const GONE: Slot := [DELETED] + seq(SLOT - 1, _ => 0)

  /** A long entry, two deleted slots and the short entry it was written for: the search finds the two
      slots, and a name created there takes the long name from the short entry. */
  lemma OrphanLends(name: seq<byte>, mem: seq<byte>, short: Slot, junk: seq<byte>)
    requires NameInMemory(name, mem) && |name| <= 12 && ShortSlot(short) && |junk| == NAME_SIZE
    ensures var a := [LongSlot(mem, 0, true, Checksum(SName(short))), GONE, GONE, short];
      && Scan(a, 0, 0, 2) == (1, false) && After(a[..1], Start(junk)).ok
      && Names(a, Start(junk)) == [Name(SName(short), Attr(short), name)]
      && Lends(a[1..], After(a[..1], Start(junk)))
  {
    hide TakeLong, Checksum, CString, LongSlot, Have;
    var sum, long, p := Checksum(SName(short)), LongSlot(mem, 0, true, Checksum(SName(short))), Start(junk);
    var a := [long, GONE, GONE, short];
    LongSlotFields(mem, 0, true, sum);
    GroupStep(p, name, mem, 0, true, sum);
    var q := TakeLong(p, long);
    CStringOf(q.name, name) by { NameBytes(name, mem); }
    assert Step(p, long) == q && Step(q, GONE) == q;
    assert a[..1] == [long];
    assert After(a[..1], p) == After([], q);
    assert a[1..] == [GONE, GONE, short] && a[1..][1..] == [GONE, short] && a[1..][1..][1..] == [short];
    SumBound(SName(short));
    assert Lends([short], q);
    assert Lends([GONE, short], q);
    assert Names([short], q) == [Name(SName(short), Attr(short), name)];
    assert Names([GONE, short], q) == Names([short], q);
    assert Names([GONE, GONE, short], q) == Names([GONE, short], q);
    assert Scan(a, 0, 0, 2) == Scan(a, 1, 0, 2) == Scan(a, 2, 1, 2);
  }

  lemma NameBytes(name: seq<byte>, mem: seq<byte>)
    requires NameInMemory(name, mem)
    ensures 0 < |name| < NAME_SIZE && forall k :: 0 <= k < |name| ==> name[k] != 0
  {
  }

  lemma PlacedParts(a: seq<Slot>, b: seq<Slot>, k: nat, w: seq<Slot>)
    requires Placed(a, b, k, w)
    ensures k <= |a| && k + |w| <= |b| && b == a[..k] + (w + b[k + |w|..])
  {
    assert b[..k] == a[..k];
    assert b == b[..k] + b[k..k + |w|] + b[k + |w|..];
  }

  /** After a short entry the reader starts afresh. */
  lemma {:induction false} RestStart(a: seq<Slot>, p: Partial)
    requires |p.name| == NAME_SIZE && p.ok && p.csum == NO_SUM && After(a, p).ok && (a == [] || ShortSlot(a[|a| - 1]))
    ensures After(a, p).csum == NO_SUM
  {
    if a != [] {
      LastStep(a, p);
    }
  }

  lemma {:induction false} LastStep(a: seq<Slot>, p: Partial)
    requires |p.name| == NAME_SIZE && p.ok && After(a, p).ok && a != [] && ShortSlot(a[|a| - 1])
    ensures After(a, p).csum == NO_SUM
    decreases |a|
  {
    hide TakeLong;
    if |a| == 1 {
      assert After(a, p) == After([], Step(p, a[0]));
    } else {
      LastStep(a[1..], Step(p, a[0]));
    }
  }
}
