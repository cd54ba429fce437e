/** Directory slots and the long-name encoding (direntry.h, direntry.c, write.c). */
module LongNames {
  import opened Bytes

  const SLOT := 32
  const NAME_SIZE := 256        // sizeof(dirent.d_name)
  const LAST_LONG := 0x40       // FAT_LAST_LONG_ENTRY
  const ATTR_VOLUME_ID := 0x08
  const ATTR_LONG := 0x0F
  const NO_SUM := 0xFFFF        // csum == -1 in a uint16
  const DELETED := 0xE5

  /** One 32-byte directory entry. */
  type Slot = s: seq<byte> | |s| == SLOT witness seq(SLOT, _ => 0)

  function SName(s: Slot): (r: seq<byte>) ensures |r| == 11 { s[..11] }
  function Attr(s: Slot): byte { s[11] }
  function Ord(s: Slot): byte { s[0] }
  function LongSum(s: Slot): byte { s[13] }

  // _fat_dirent_chksum: rotate right, add, modulo 256
  function Rotate(sum: byte, c: byte): byte {
    ((if sum % 2 == 1 then 0x80 else 0) + sum / 2 + c) % 0x100
  }

  function Checksum(name: seq<byte>): byte {
    if name == [] then 0 else Rotate(Checksum(name[..|name| - 1]), name[|name| - 1])
  }

  method ComputeChecksum(name: seq<byte>) returns (sum: byte)
    requires |name| == 11
    ensures sum == Checksum(name)
  {
    sum := 0;
    var i := 0;
    while i < 11
      invariant 0 <= i <= 11 && sum == Checksum(name[..i])
    {
      assert name[..i + 1][..i] == name[..i];
      sum := Rotate(sum, name[i]);
      i := i + 1;
    }
    assert name[..11] == name;
  }

  // ---- The sum, bit by bit ------------------------------------------------------------------

  /** The number with these bits, the lowest first. */
  function OfBits(b: seq<bool>): nat {
    if b == [] then 0 else (if b[0] then 1 else 0) + 2 * OfBits(b[1..])
  }

  function BitsOf(x: nat, n: nat): (b: seq<bool>)
    ensures |b| == n
  {
    if n == 0 then [] else [x % 2 == 1] + BitsOf(x / 2, n - 1)
  }

  lemma {:induction false} OfBitsOf(x: nat, n: nat)
    requires n <= 8 && x < [1, 2, 4, 8, 16, 32, 64, 128, 256][n]
    ensures OfBits(BitsOf(x, n)) == x
    decreases n
  {
    if n > 0 {
      OfBitsOf(x / 2, n - 1);
      assert BitsOf(x, n)[1..] == BitsOf(x / 2, n - 1);
    }
  }

  /** A bit at the top. */
  lemma {:induction false} OfBitsTop(b: seq<bool>, c: bool)
    requires |b| <= 8
    ensures OfBits(b) < [1, 2, 4, 8, 16, 32, 64, 128, 256][|b|]
    ensures OfBits(b + [c]) == OfBits(b) + if c then [1, 2, 4, 8, 16, 32, 64, 128, 256][|b|] else 0
    decreases |b|
  {
    if b == [] {
      assert b + [c] == [c] && [c][1..] == [];
    } else {
      OfBitsTop(b[1..], c);
      assert (b + [c])[1..] == b[1..] + [c];
    }
  }

  /** `k` places to the right, the low bits coming back in at the top. */
  function Turned(x: byte, k: nat): nat
    requires k <= 8
  {
    OfBits(BitsOf(x, 8)[k..] + BitsOf(x, 8)[..k])
  }

  function Turns(sum: byte, k: nat): byte {
    if k == 0 then sum else Rotate(Turns(sum, k - 1), 0)
  }

  lemma Halves(x: byte, y: nat, odd: bool, c: byte)
    requires x == 2 * y + if odd then 1 else 0
    ensures Rotate(x, 0) == y + (if odd then 0x80 else 0) && Rotate(x, c) == (Rotate(x, 0) + c) % 0x100
  {
  }

  lemma OneTurn(x: byte, b: seq<bool>, c: byte)
    requires |b| == 8 && OfBits(b) == x
    ensures Rotate(x, 0) == OfBits(b[1..] + b[..1]) && Rotate(x, c) == (Rotate(x, 0) + c) % 0x100
  {
    hide Rotate;
    Halves(x, OfBits(b[1..]), b[0], c);
    OfBitsTop(b[1..], b[0]);
    assert b[..1] == [b[0]];
  }

  /** One step of the sum turns it by one bit and then adds, on eight bits. */
  lemma RotateTurns(sum: byte, c: byte)
    ensures Rotate(sum, c) == (Turned(sum, 1) + c) % 0x100
    ensures Turned(sum, 1) == if sum % 2 == 0 then sum / 2 else sum / 2 + 0x80
  {
    hide OfBits, BitsOf;
    OfBitsOf(sum, 8);
    OneTurn(sum, BitsOf(sum, 8), c);
  }

  /** With nothing added, `k` steps turn the sum by `k` bits, and eight give it back. */
  lemma {:induction false} TurnsTurn(sum: byte, k: nat)
    requires k <= 8
    ensures Turns(sum, k) == Turned(sum, k) && Turned(sum, 8) == sum
    decreases k
  {
    hide Rotate, OfBits, BitsOf;
    var b := BitsOf(sum, 8);
    OfBitsOf(sum, 8);
    assert b[0..] + b[..0] == b && b[8..] + b[..8] == b;
    if k > 0 {
      TurnsTurn(sum, k - 1);
      var t := b[k - 1..] + b[..k - 1];
      OneTurn(Turns(sum, k - 1), t, 0);
      TurnFurther(b, k);
    }
  }

  lemma TurnFurther(b: seq<bool>, k: nat)
    requires 0 < k <= |b|
    ensures var t := b[k - 1..] + b[..k - 1]; t[1..] + t[..1] == b[k..] + b[..k]
  {
  }

  /** The sum of the short name of messages.txt, MESSAG~1.TXT. */
  lemma MessageSum()
    ensures Checksum(MESSAG) == 0x81
  {
    hide Checksum;
    var n := MESSAG;
    SumStep(n, 0, 0, 0x4D);
    SumStep(n, 1, 0x4D, 0xEB);
    SumStep(n, 2, 0xEB, 0x48);
    SumStep(n, 3, 0x48, 0x77);
    SumStep(n, 4, 0x77, 0xFC);
    SumStep(n, 5, 0xFC, 0xC5);
    SumStep(n, 6, 0xC5, 0x60);
    SumStep(n, 7, 0x60, 0x61);
    SumStep(n, 8, 0x61, 0x04);
    SumStep(n, 9, 0x04, 0x5A);
    SumStep(n, 10, 0x5A, 0x81);
    assert n[..11] == n;
  }

  const MESSAG: seq<byte> := [0x4D, 0x45, 0x53, 0x53, 0x41, 0x47, 0x7E, 0x31, 0x54, 0x58, 0x54]

  lemma SumStep(n: seq<byte>, i: nat, before: byte, after: byte)
    requires i < |n| && after == Rotate(before, n[i]) && (i > 0 ==> Checksum(n[..i]) == before) && (i == 0 ==> before == 0)
    ensures Checksum(n[..i + 1]) == after
  {
    assert n[..i + 1][..i] == n[..i];
  }

  // ---- UTF-16 units of a long entry -------------------------------------------------------

  /** `n` little-endian units from byte offset `o`. */
  function Units(s: seq<byte>, o: nat, n: nat): (u: seq<nat>)
    requires o + 2 * n <= |s|
    ensures |u| == n
  {
    seq(n, k requires 0 <= k < n => Get16(s, o + 2 * k))
  }

  function FromUnits(u: seq<byte>): (s: seq<byte>)
    ensures |s| == 2 * |u|
  {
    seq(2 * |u|, k requires 0 <= k < 2 * |u| => if k % 2 == 0 then u[k / 2] else 0)
  }

  lemma UnitsOfBytes(pre: seq<byte>, u: seq<byte>, post: seq<byte>)
    ensures Units(pre + FromUnits(u) + post, |pre|, |u|) == u
  {
    var s := pre + FromUnits(u) + post;
    forall k | 0 <= k < |u|
      ensures Get16(s, |pre| + 2 * k) == u[k]
    {
      assert s[|pre| + 2 * k] == FromUnits(u)[2 * k] == u[k];
      assert s[|pre| + 2 * k + 1] == FromUnits(u)[2 * k + 1] == 0;
    }
  }

  datatype Stopped = AtNul | AtEnd | NotAscii | Outside

  datatype Conversion = Conversion(why: Stopped, name: seq<byte>)

  // ascii_from_utf16 into d_name from index `at`; `Outside` marks a store past the buffer.
  function Convert(name: seq<byte>, at: nat, u: seq<nat>): (c: Conversion)
    ensures |c.name| == |name|
    decreases |u|
  {
    if u == [] then Conversion(AtEnd, name)
    else if u[0] > 127 then Conversion(NotAscii, name)
    else if at >= |name| then Conversion(Outside, name)
    else if u[0] == 0 then Conversion(AtNul, name[at := 0])
    else Convert(name[at := u[0]], at + 1, u[1..])
  }

  /** Reader state while collecting a long name: the checksum expected and d_name. */
  datatype Partial = Partial(csum: nat, name: seq<byte>, ok: bool)

  function Abandon(csum: nat, c: Conversion): nat {
    if c.why == NotAscii then NO_SUM else csum
  }

  /** What fat_readdir does with one long entry. */
  function TakeLong(p: Partial, s: Slot): (r: Partial)
    requires |p.name| == NAME_SIZE
    ensures |r.name| == NAME_SIZE
  {
    var start := if Ord(s) / LAST_LONG % 2 == 1 then Partial(LongSum(s), seq(NAME_SIZE, _ => 0), p.ok) else p;
    var csum := if start.csum != LongSum(s) then NO_SUM else start.csum;
    if Ord(s) % LAST_LONG == 0 then Partial(csum, start.name, false) else
      var i := (Ord(s) % LAST_LONG - 1) * 13;
      var a := Convert(start.name, i, Units(s, 1, 5));
      var csum1 := Abandon(csum, a);
      if a.why == AtNul || a.why == Outside then Partial(csum1, a.name, p.ok && a.why == AtNul) else
        var b := Convert(a.name, i + 5, Units(s, 14, 6));
        var csum2 := Abandon(csum1, b);
        if b.why == AtNul || b.why == Outside then Partial(csum2, b.name, p.ok && b.why == AtNul) else
          var c := Convert(b.name, i + 11, Units(s, 28, 2));
          Partial(Abandon(csum2, c), c.name, p.ok && c.why != Outside)
  }

  // ---- Reading a directory ----------------------------------------------------------------

  /** The C string held in a buffer. */
  function CString(name: seq<byte>): (r: seq<byte>)
    ensures r <= name && 0 !in r && (|r| < |name| ==> name[|r|] == 0)
    decreases |name|
  {
    if name == [] || name[0] == 0 then [] else [name[0]] + CString(name[1..])
  }

  datatype Outcome =
    | End                                                       // fat_readdir returns -1
    | Found(sname: seq<byte>, attr: byte, long: seq<byte>, used: nat)
    | Overrun                                                   // a long entry points outside d_name

  /**
   * fat_readdir over the slots from the directory position on.  `long` is the long name, or empty
   * when the reader falls back to the short one; `used` counts the slots consumed.
   */
  function Decode(slots: seq<Slot>, p: Partial): (r: Outcome)
    requires |p.name| == NAME_SIZE && p.ok
    decreases |slots|
  {
    if slots == [] then End else
      var s := slots[0];
      if s[0] == 0 then End
      else if s[0] == DELETED || Attr(s) == ATTR_VOLUME_ID then OneMore(Decode(slots[1..], p))
      else if Attr(s) == ATTR_LONG then
        var q := TakeLong(p, s);
        if q.ok then OneMore(Decode(slots[1..], q)) else Overrun
      else Found(SName(s), Attr(s), if p.csum == Checksum(SName(s)) then CString(p.name) else [], 1)
  }

  function OneMore(r: Outcome): Outcome {
    if r.Found? then r.(used := r.used + 1) else r
  }

  /** A reader that has just been called: no checksum yet, d_name holding anything. */
  function Start(junk: seq<byte>): Partial { Partial(NO_SUM, junk, true) }

  // ---- Writing a long name ----------------------------------------------------------------

  /** The entry for group `i` of thirteen characters; the first one written carries the mark. */
  function LongSlot(mem: seq<byte>, i: nat, last: bool, sum: byte): (s: Slot)
    requires 13 * i + 13 <= |mem| && i < 63
  {
    [i + 1 + if last then LAST_LONG else 0]
      + FromUnits(mem[13 * i..13 * i + 5])
      + [ATTR_LONG, 0, sum]
      + FromUnits(mem[13 * i + 5..13 * i + 11])
      + [0, 0]
      + FromUnits(mem[13 * i + 11..13 * i + 13])
  }

  /** The long entries for groups `i` down to 0. */
  function LongSlots(mem: seq<byte>, i: nat, last: bool, sum: byte): (r: seq<Slot>)
    requires 13 * i + 13 <= |mem| && i < 63
    ensures |r| == i + 1
  {
    [LongSlot(mem, i, last, sum)] + if i == 0 then [] else LongSlots(mem, i - 1, false, sum)
  }

  /**
   * `mem` is the memory the name is read from: the characters, their NUL, and whatever follows it
   * up to the end of the last group of thirteen.
   */
  predicate NameInMemory(name: seq<byte>, mem: seq<byte>) {
    && 1 <= |name| <= 255 && (forall k :: 0 <= k < |name| ==> 0 < name[k] <= 127)
    && |mem| >= 13 * (|name| / 13) + 13
    && name <= mem && mem[|name|] == 0
  }

  /** The entries of a new file: long ones and the short one. */
  function EntrySlots(name: seq<byte>, mem: seq<byte>, short: Slot): (slots: seq<Slot>)
    requires NameInMemory(name, mem)
    ensures |slots| == |name| / 13 + 2
  {
    LongSlots(mem, |name| / 13, true, Checksum(SName(short))) + [short]
  }

  predicate ShortSlot(s: Slot) {
    s[0] != 0 && s[0] != DELETED && Attr(s) != ATTR_VOLUME_ID && Attr(s) != ATTR_LONG
  }

  lemma LongSlotFields(mem: seq<byte>, i: nat, last: bool, sum: byte)
    requires 13 * i + 13 <= |mem| && i < 63
    ensures var s := LongSlot(mem, i, last, sum);
      && Ord(s) % LAST_LONG == i + 1 && (Ord(s) / LAST_LONG % 2 == 1 <==> last)
      && (i < 20 ==> s[0] != 0 && s[0] != DELETED) && Attr(s) == ATTR_LONG && LongSum(s) == sum
      && Units(s, 1, 5) == mem[13 * i..13 * i + 5]
      && Units(s, 14, 6) == mem[13 * i + 5..13 * i + 11]
      && Units(s, 28, 2) == mem[13 * i + 11..13 * i + 13]
  {
    var a, b, c := mem[13 * i..13 * i + 5], mem[13 * i + 5..13 * i + 11], mem[13 * i + 11..13 * i + 13];
    var ord: byte := i + 1 + if last then LAST_LONG else 0;
    LongSlotUnits(ord, a, b, c, sum);
    hide Units;
  }

  lemma LongSlotUnits(ord: byte, a: seq<byte>, b: seq<byte>, c: seq<byte>, sum: byte)
    requires |a| == 5 && |b| == 6 && |c| == 2
    ensures var s := [ord] + FromUnits(a) + [ATTR_LONG, 0, sum] + FromUnits(b) + [0, 0] + FromUnits(c);
      |s| == SLOT && Units(s, 1, 5) == a && Units(s, 14, 6) == b && Units(s, 28, 2) == c
  {
    hide Units, FromUnits;
    var s := [ord] + FromUnits(a) + [ATTR_LONG, 0, sum] + FromUnits(b) + [0, 0] + FromUnits(c);
    var mid: seq<byte> := [ATTR_LONG, 0, sum];
    UnitsOfBytes([ord], a, mid + FromUnits(b) + [0, 0] + FromUnits(c));
    assert s == [ord] + FromUnits(a) + (mid + FromUnits(b) + [0, 0] + FromUnits(c));
    UnitsOfBytes([ord] + FromUnits(a) + mid, b, [0, 0] + FromUnits(c));
    assert s == [ord] + FromUnits(a) + mid + FromUnits(b) + ([0, 0] + FromUnits(c));
    UnitsOfBytes([ord] + FromUnits(a) + mid + FromUnits(b) + [0, 0], c, []);
    assert s == [ord] + FromUnits(a) + mid + FromUnits(b) + [0, 0] + FromUnits(c) + [];
  }

  // ---- Round trip -------------------------------------------------------------------------

  /** Converting characters up to a NUL, or all of them, stores them side by side. */
  lemma {:induction false} ConvertText(name: seq<byte>, at: nat, u: seq<byte>, m: nat)
    requires m <= |u| && at + m <= |name| && (m < |u| ==> u[m] == 0 && at + m < |name|)
    requires forall k :: 0 <= k < m ==> 0 < u[k] <= 127
    ensures var c := Convert(name, at, u);
      c.why == (if m < |u| then AtNul else AtEnd)
      && forall p :: 0 <= p < |name| ==>
        c.name[p] == if at <= p < at + m then u[p - at] else if m < |u| && p == at + m then 0 else name[p]
    decreases m
  {
    if m > 0 {
      ConvertText(name[at := u[0]], at + 1, u[1..], m - 1);
    }
  }

  /**
   * d_name while group `i` is being stored: everything of the name from the next group on and the
   * part of this group before `at`; zero elsewhere.
   */
  ghost predicate Have(n: seq<byte>, name: seq<byte>, i: nat, at: nat) {
    |n| == NAME_SIZE && forall p :: 0 <= p < NAME_SIZE ==>
      n[p] == if p < |name| && (13 * i <= p < at || p >= 13 * i + 13) then name[p] else 0
  }

  /** One of the three conversions of a group. */
  lemma PartStep(n: seq<byte>, name: seq<byte>, mem: seq<byte>, i: nat, at: nat, len: nat)
    requires NameInMemory(name, mem) && Have(n, name, i, at)
    requires 13 * i <= at <= at + len <= 13 * i + 13 <= |mem| && at <= |name|
    ensures var c := Convert(n, at, mem[at..at + len]);
      if at + len <= |name| then c.why == AtEnd && Have(c.name, name, i, at + len)
      else c.why == AtNul && Have(c.name, name, i, 13 * i + 13)
  {
    var u := mem[at..at + len];
    var m := if at + len <= |name| then len else |name| - at;
    assert forall k :: 0 <= k < |name| ==> mem[k] == name[k];
    ConvertText(n, at, u, m);
  }

  /** A whole group: the reader has one group more of the name. */
  lemma GroupStep(p: Partial, name: seq<byte>, mem: seq<byte>, i: nat, last: bool, sum: byte)
    requires NameInMemory(name, mem) && p.ok && |p.name| == NAME_SIZE && i <= |name| / 13
    requires last <==> i == |name| / 13
    requires !last ==> p.csum == sum && Have(p.name, name, i, 13 * i)
    ensures var q := TakeLong(p, LongSlot(mem, i, last, sum));
      q.ok && q.csum == sum && Have(q.name, name, i, 13 * i + 13)
  {
    hide Convert, Units, LongSlot;
    LongSlotFields(mem, i, last, sum);
    var n := if last then seq(NAME_SIZE, _ => 0) else p.name;
    PartStep(n, name, mem, i, 13 * i, 5);
    var a := Convert(n, 13 * i, mem[13 * i..13 * i + 5]);
    if a.why == AtEnd {
      PartStep(a.name, name, mem, i, 13 * i + 5, 6);
      var b := Convert(a.name, 13 * i + 5, mem[13 * i + 5..13 * i + 11]);
      if b.why == AtEnd {
        PartStep(b.name, name, mem, i, 13 * i + 11, 2);
      }
    }
  }

  lemma CStringOf(n: seq<byte>, name: seq<byte>)
    requires Have(n, name, 0, 13) && |name| < NAME_SIZE && forall k :: 0 <= k < |name| ==> name[k] != 0
    ensures CString(n) == name
  {
    var r := CString(n);
    assert n[|name|] == 0;
    assert forall k :: 0 <= k < |name| ==> n[k] == name[k];
    assert forall k :: 0 <= k < |r| ==> n[k] == r[k] && r[k] != 0;
  }

  /** The reader consumes the long entries from group `i` down and then the short one. */
  lemma {:induction false} DecodeGroups(p: Partial, name: seq<byte>, mem: seq<byte>, i: nat, last: bool, sum: byte, short: Slot, rest: seq<Slot>)
    requires NameInMemory(name, mem) && ShortSlot(short) && p.ok && |p.name| == NAME_SIZE
    requires i <= |name| / 13 < 20 && 13 * i + 13 <= |mem|
    requires last <==> i == |name| / 13
    requires !last ==> p.csum == sum && Have(p.name, name, i, 13 * i)
    ensures Decode(LongSlots(mem, i, last, sum) + [short] + rest, p)
      == Found(SName(short), Attr(short), if sum == Checksum(SName(short)) then name else [], i + 2)
    decreases i
  {
    hide LongSlot, TakeLong, Checksum, CString, Decode, Have, NameInMemory;
    var head, tail := LongSlot(mem, i, last, sum), if i == 0 then [] else LongSlots(mem, i - 1, false, sum);
    GroupStep(p, name, mem, i, last, sum);
    var q := TakeLong(p, head);
    assert LongSlots(mem, i, last, sum) + [short] + rest == [head] + (tail + [short] + rest);
    DecodeLong(p, mem, i, last, sum, tail + [short] + rest);
    if i == 0 {
      assert tail + [short] + rest == [short] + rest;
      DecodeShort(q, name, mem, sum, short, rest);
    } else {
      HaveNext(q.name, name, i);
      DecodeGroups(q, name, mem, i - 1, false, sum, short, rest);
    }
  }

  /** The reader passes over one long entry. */
  lemma DecodeLong(p: Partial, mem: seq<byte>, i: nat, last: bool, sum: byte, rest: seq<Slot>)
    requires p.ok && |p.name| == NAME_SIZE && i < 20 && 13 * i + 13 <= |mem|
    requires TakeLong(p, LongSlot(mem, i, last, sum)).ok
    ensures Decode([LongSlot(mem, i, last, sum)] + rest, p)
      == OneMore(Decode(rest, TakeLong(p, LongSlot(mem, i, last, sum))))
  {
    hide LongSlot, TakeLong, Checksum, CString;
    LongSlotFields(mem, i, last, sum);
    assert ([LongSlot(mem, i, last, sum)] + rest)[1..] == rest;
  }

  /** With the whole name collected the short entry completes it, or sets it aside. */
  lemma DecodeShort(p: Partial, name: seq<byte>, mem: seq<byte>, sum: byte, short: Slot, rest: seq<Slot>)
    requires NameInMemory(name, mem) && ShortSlot(short) && p.ok && |p.name| == NAME_SIZE
    requires p.csum == sum && Have(p.name, name, 0, 13)
    ensures Decode([short] + rest, p) == Found(SName(short), Attr(short), if sum == Checksum(SName(short)) then name else [], 1)
  {
    hide Checksum, CString;
    CStringOf(p.name, name);
  }

  lemma HaveNext(n: seq<byte>, name: seq<byte>, i: nat)
    requires i > 0 && Have(n, name, i, 13 * i + 13)
    ensures Have(n, name, i - 1, 13 * (i - 1))
  {
  }

  /**
   * Long-name round trip: for every name of 1 to 255 ASCII characters, whatever follows its NUL in
   * memory, whatever d_name held and whatever comes later in the directory, the entries written by
   * _fat_dir_create_file are read back as exactly that name and short name.
   */
  lemma RoundTrip(name: seq<byte>, mem: seq<byte>, short: Slot, rest: seq<Slot>, junk: seq<byte>)
    requires NameInMemory(name, mem) && ShortSlot(short) && |junk| == NAME_SIZE
    ensures Decode(LongSlots(mem, |name| / 13, true, Checksum(SName(short))) + [short] + rest, Start(junk))
      == Found(SName(short), Attr(short), name, |name| / 13 + 2)
  {
    DecodeGroups(Start(junk), name, mem, |name| / 13, true, Checksum(SName(short)), short, rest);
  }

  /** The long name is found if and only if its entries carry the sum of the short name. */
  lemma SumDecides(name: seq<byte>, mem: seq<byte>, sum: byte, short: Slot, rest: seq<Slot>, junk: seq<byte>)
    requires NameInMemory(name, mem) && ShortSlot(short) && |junk| == NAME_SIZE
    ensures var r := Decode(LongSlots(mem, |name| / 13, true, sum) + [short] + rest, Start(junk));
      r.Found? && r.sname == SName(short) && r.attr == Attr(short) && r.used == |name| / 13 + 2
      && (r.long == name <==> sum == Checksum(SName(short))) && (r.long != name ==> r.long == [])
  {
    hide Decode, LongSlots, Checksum;
    DecodeGroups(Start(junk), name, mem, |name| / 13, true, sum, short, rest);
  }

  // ---- Characters that are not ASCII --------------------------------------------------------------

  /** No unit before the first NUL is beyond ASCII. */
  predicate AsciiUnits(u: seq<nat>) {
    forall k :: 0 <= k < |u| && u[k] > 127 ==> 0 in u[..k]
  }

  lemma {:induction false} ConvertStops(name: seq<byte>, at: nat, u: seq<nat>)
    requires at + |u| <= |name|
    ensures Convert(name, at, u).why == if !AsciiUnits(u) then NotAscii else if 0 in u then AtNul else AtEnd
    decreases |u|
  {
    if u != [] {
      assert u == [u[0]] + u[1..];
      if 0 < u[0] <= 127 {
        ConvertStops(name[at := u[0]], at + 1, u[1..]);
        assert forall k :: 1 <= k <= |u| ==> u[..k] == [u[0]] + u[1..][..k - 1];
      }
    }
  }

  /** A long entry keeps the sum going if and only if it is its own and its units are ASCII. */
  lemma SumKept(p: Partial, s: Slot)
    requires |p.name| == NAME_SIZE && p.ok && 0 < Ord(s) % LAST_LONG && 13 * (Ord(s) % LAST_LONG) <= NAME_SIZE
    ensures var q, u := TakeLong(p, s), Units(s, 1, 5) + Units(s, 14, 6) + Units(s, 28, 2);
      q.ok && q.csum == if (Ord(s) / LAST_LONG % 2 == 1 || p.csum == LongSum(s)) && AsciiUnits(u) then LongSum(s) else NO_SUM
  {
    hide Convert, Units, AsciiUnits;
    var start := if Ord(s) / LAST_LONG % 2 == 1 then Partial(LongSum(s), seq(NAME_SIZE, _ => 0), p.ok) else p;
    var i := (Ord(s) % LAST_LONG - 1) * 13;
    var x, y, z := Units(s, 1, 5), Units(s, 14, 6), Units(s, 28, 2);
    ConvertStops(start.name, i, x);
    var a := Convert(start.name, i, x);
    ConvertStops(a.name, i + 5, y);
    var b := Convert(a.name, i + 5, y);
    ConvertStops(b.name, i + 11, z);
    AsciiJoin(x, y);
    AsciiJoin(x + y, z);
    assert 0 in x + y <==> 0 in x || 0 in y;
  }

  lemma AsciiJoin(a: seq<nat>, b: seq<nat>)
    ensures AsciiUnits(a + b) <==> AsciiUnits(a) && (0 in a || AsciiUnits(b))
  {
    var u := a + b;
    assert forall k :: 0 <= k <= |a| ==> u[..k] == a[..k];
    assert forall k :: |a| <= k <= |u| ==> u[..k] == a + b[..k - |a|];
    if AsciiUnits(u) {
      forall k | 0 <= k < |a| && a[k] > 127 ensures 0 in a[..k] { assert u[k] == a[k]; }
      if 0 !in a {
        forall k | 0 <= k < |b| && b[k] > 127 ensures 0 in b[..k] { assert u[|a| + k] == b[k]; }
      }
    }
  }

  // ---- An entry as another driver leaves it -----------------------------------------------------

  const MESSAGES: seq<byte> := [0x6D, 0x65, 0x73, 0x73, 0x61, 0x67, 0x65, 0x73, 0x2E, 0x74, 0x78, 0x74]

  function MessagesLong(): (s: seq<byte>)
    ensures |s| == SLOT
  {
    [0x41, 0x6D, 0, 0x65, 0, 0x73, 0, 0x73, 0, 0x61, 0, 0x0F, 0, 0x81, 0x67, 0, 0x65, 0, 0x73, 0, 0x2E, 0, 0x74, 0, 0x78, 0, 0, 0,
      0x74, 0, 0, 0]
  }

  function MessagesShort(): (s: seq<byte>)
    ensures |s| == SLOT
  {
    MESSAG + [0x20] + seq(20, _ => 0)
  }

  /** The two entries of messages.txt, byte by byte, are read as that name. */
  lemma ReadsMessages(rest: seq<Slot>, junk: seq<byte>)
    requires |junk| == NAME_SIZE
    ensures Decode([MessagesLong(), MessagesShort()] + rest, Start(junk)) == Found(MESSAG, 0x20, MESSAGES, 2)
    ensures Decode([Deleted(), Label()] + ([MessagesLong(), MessagesShort()] + rest), Start(junk)) == Found(MESSAG, 0x20, MESSAGES, 4)
    ensures Decode([seq(SLOT, _ => 0)] + rest, Start(junk)) == End
  {
    hide Decode, Checksum, LongSlot, TakeLong;
    var mem, short: Slot := MESSAGES + [0], MessagesShort();
    MessageSum();
    assert SName(short) == MESSAG;
    assert mem[|MESSAGES|] == 0 && MESSAGES <= mem;
    MessagesGroup(mem);
    RoundTrip(MESSAGES, mem, short, rest, junk);
    var all := [MessagesLong(), short] + rest;
    assert LongSlots(mem, 0, true, 0x81) + [short] + rest == all;
    PassedOver(Label(), all, Start(junk));
    PassedOver(Deleted(), [Label()] + all, Start(junk));
    assert [Deleted(), Label()] + all == [Deleted()] + ([Label()] + all);
    PassedOver(seq(SLOT, _ => 0), rest, Start(junk));
  }

  /** A deleted file: 0xE5 for the first character of its name. */
  function Deleted(): (s: seq<byte>)
    ensures |s| == SLOT
  {
    [0xE5] + MESSAG[1..] + [0x20] + seq(20, _ => 0)
  }

  /** A volume label: attribute 8. */
  function Label(): (s: seq<byte>)
    ensures |s| == SLOT
  {
    MESSAG + [8] + seq(20, _ => 0)
  }

  /** A reader stops at a first byte 0 and passes over 0xE5 and volume labels. */
  lemma PassedOver(s: Slot, rest: seq<Slot>, p: Partial)
    requires |p.name| == NAME_SIZE && p.ok
    ensures s[0] == 0 ==> Decode([s] + rest, p) == End
    ensures s[0] == 0xE5 || (s[0] != 0 && s[11] == 8) ==> Decode([s] + rest, p) == OneMore(Decode(rest, p))
  {
    hide TakeLong, Checksum, CString;
    assert ([s] + rest)[1..] == rest;
  }

  lemma MessagesGroup(mem: seq<byte>)
    requires mem == MESSAGES + [0]
    ensures LongSlot(mem, 0, true, 0x81) == MessagesLong()
  {
    hide FromUnits;
    FiveUnits(mem[0..5]);
    SixUnits(mem[5..11]);
    TwoUnits(mem[11..13]);
  }

  lemma FiveUnits(u: seq<byte>)
    requires |u| == 5
    ensures FromUnits(u) == [u[0], 0, u[1], 0, u[2], 0, u[3], 0, u[4], 0]
  {
  }

  lemma SixUnits(u: seq<byte>)
    requires |u| == 6
    ensures FromUnits(u) == [u[0], 0, u[1], 0, u[2], 0, u[3], 0, u[4], 0, u[5], 0]
  {
  }

  lemma TwoUnits(u: seq<byte>)
    requires |u| == 2
    ensures FromUnits(u) == [u[0], 0, u[1], 0]
  {
  }
}
