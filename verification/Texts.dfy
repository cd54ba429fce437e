/** What each directive prints, said of the format text and the arguments (printf.c:590-906). */
module Texts {
  import opened Arithmetic
  import opened Options
  import opened Numbers
  import opened Printf

  const LOWER := "0123456789abcdef"
  const UPPER := "0123456789ABCDEF"

  // ---- Numerals ----------------------------------------------------------------------------

  /** `v` as one writes it, the first digit first. */
  function Numeral(v: nat, base: nat, upper: bool): (t: string)
    requires 2 <= base <= 16
    ensures t != ""
  {
    (if v < base then "" else Numeral(v / base, base, upper)) + [(if upper then UPPER else LOWER)[v % base]]
  }

  /** The number a text of digits stands for, read from its beginning. */
  function Number(t: string, base: nat): nat {
    if t == "" then 0 else Number(t[..|t| - 1], base) * base + DigitValue(t[|t| - 1])
  }

  function Last(t: string, n: nat): (r: string)
    ensures |r| == Least(n, |t|)
  {
    t[|t| - Least(n, |t|)..]
  }

  lemma Symbols(d: nat, upper: bool)
    requires d < 16
    ensures DigitChar(d, upper) == (if upper then UPPER else LOWER)[d] && DigitValue((if upper then UPPER else LOWER)[d]) == d
  {
  }

  lemma NumberSnoc(t: string, c: char, base: nat)
    ensures Number(t + [c], base) == Number(t, base) * base + DigitValue(c)
  {
    hide DigitValue;
    assert (t + [c])[..|t|] == t;
  }

  lemma NumeralStep(v: nat, base: nat, upper: bool, digit: nat, rest: nat)
    requires 2 <= base <= 16 && digit < base && IsStep(v, base, digit, rest)
    ensures DigitValue(DigitChar(digit, upper)) == digit && (rest > 0 <==> v >= base)
    ensures Numeral(v, base, upper) == (if rest == 0 then "" else Numeral(rest, base, upper)) + [DigitChar(digit, upper)]
  {
    hide DigitChar, DigitValue;
    Symbols(digit, upper);
    Split(v, base);
    if v < base {
      DivExact(0, v, base);
    } else if rest == 0 {
      assert false;
    }
  }

  lemma NextDigit(v: nat, base: nat) returns (digit: nat, rest: nat)
    requires 2 <= base <= 16
    ensures digit < base && IsStep(v, base, digit, rest) && v == rest * base + digit && (rest > 0 ==> rest < v)
  {
    digit, rest := v % base, v / base;
    Split(v, base);
  }

  lemma {:induction false} NumeralRead(v: nat, base: nat, upper: bool)
    requires 2 <= base <= 16
    ensures Number(Numeral(v, base, upper), base) == v
  {
    hide DigitValue, DigitChar, Numeral, Number, IsStep;
    var digit, rest := NextDigit(v, base);
    NumeralStep(v, base, upper, digit, rest);
    var head := if rest == 0 then "" else Numeral(rest, base, upper);
    NumberSnoc(head, DigitChar(digit, upper), base);
    if rest > 0 {
      NumeralRead(rest, base, upper);
    } else {
      assert Number("", base) == 0 by { NoNumber(base); }
    }
  }

  lemma NoNumber(base: nat)
    ensures Number("", base) == 0
  {
  }

  /** The buffer holds the last `max` digits. */
  lemma {:induction false} DigitsNumeral(v: nat, base: nat, upper: bool, max: nat)
    requires 2 <= base <= 16
    ensures Reverse(Digits(v, base, upper, max)) == Last(Numeral(v, base, upper), max)
    decreases max
  {
    hide DigitChar, DigitValue, Numeral, IsStep, Digits;
    if max > 0 {
      var digit, rest := NextDigit(v, base);
      NumeralStep(v, base, upper, digit, rest);
      DigitsUnfold(v, base, upper, max, digit, rest);
      var c, head := DigitChar(digit, upper), if rest == 0 then "" else Numeral(rest, base, upper);
      NoDigits(rest, base, upper);
      if rest > 0 {
        DigitsNumeral(rest, base, upper, max - 1);
      }
      var low := if rest == 0 then "" else Digits(rest, base, upper, max - 1);
      assert ([c] + low)[1..] == low && [c] + low != "";
      assert Last(head + [c], max) == Last(head, max - 1) + [c];
    } else {
      NoDigits(v, base, upper);
    }
  }

  /** `n` copies of a character. */
  function Run(c: char, n: int): (r: string)
    ensures |r| == if n > 0 then n else 0
  {
    seq(if n > 0 then n else 0, _ => c)
  }

  lemma {:induction false} SpacesRun(n: int)
    ensures Spaces(n) == Run(' ', n)
    decreases n
  {
    if n > 0 {
      SpacesRun(n - 1);
    }
  }

  // ---- The text of a number ------------------------------------------------------------------

  function Most(a: nat, b: int): nat {
    if a < b then b else a
  }

  /** As much of a prefix, its end, as a buffer of 32 has room for beside `n` characters. */
  function Fitting(prefix: string, n: nat): string
    requires n <= NTOA
  {
    Last(prefix, NTOA - n)
  }

  function SignOf(neg: bool, f: Flags): string {
    if neg then "-" else if f.plus then "+" else if f.space then " " else ""
  }

  function MarkOf(v: nat, base: nat, f: Flags): string {
    if !f.hash || v == 0 then "" else if base == 16 then (if f.upper then "0X" else "0x") else if base == 2 then "0b" else "0"
  }

  /** The digits with their zeros. */
  function Zeroed(v: nat, neg: bool, base: nat, prec: nat, width: nat, f: Flags): (t: string)
    requires 2 <= base <= 16
    ensures |t| <= NTOA
  {
    var digits := if v == 0 && f.precision then "" else Last(Numeral(v, base, f.upper), NTOA);
    var zeros := if f.zeroPad then width - |SignOf(neg, f)| else 0;
    Run('0', (if f.left then 0 else Least(NTOA, Most(prec, zeros))) - |digits|) + digits
  }

  /** Zeros or digits that give way to 0x, 0b or 0 where they alone fill the width. */
  function Dropped(t: string, v: nat, neg: bool, base: nat, width: nat, f: Flags): (r: string)
    ensures |r| <= |t|
  {
    if MarkOf(v, base, f) == "" || f.precision || |t| != (if f.zeroPad && !f.left then width - |SignOf(neg, f)| else width) then t
    else t[Least(|t|, if base == 16 && |t| > 1 then 2 else 1)..]
  }

  function NumberText(v: nat, neg: bool, base: nat, prec: nat, width: nat, f: Flags): string
    requires 2 <= base <= 16
  {
    var t := Dropped(Zeroed(v, neg, base, prec, width, f), v, neg, base, width, f);
    var u := Fitting(MarkOf(v, base, f), |t|) + t;
    var w := Fitting(SignOf(neg, f), |u|) + u;
    Aligned(w, if f.zeroPad && !f.left then 0 else width, f.left)
  }

  function Aligned(t: string, width: nat, left: bool): string {
    if left then t + Run(' ', width - |t|) else Run(' ', width - |t|) + t
  }
  lemma {:induction false} ReverseAppend(a: string, b: string)
    ensures Reverse(a + b) == Reverse(b) + Reverse(a)
    decreases |a|
  {
    if a == "" {
      assert a + b == b;
    } else {
      assert (a + b)[1..] == a[1..] + b;
      ReverseAppend(a[1..], b);
    }
  }

  lemma {:induction false} PadToRun(d: string, n: nat)
    ensures Reverse(PadTo(d, n)) == Run('0', Least(NTOA, n) - |d|) + Reverse(d)
    decreases n - |d|
  {
    if |d| < n && |d| < NTOA {
      PadToRun(d + "0", n);
      ReverseSnoc(d, '0');
      assert Run('0', Least(NTOA, n) - |d| - 1) + "0" == Run('0', Least(NTOA, n) - |d|);
    }
  }

  lemma {:induction false} ReverseTake(t: string, k: nat)
    requires k <= |t|
    ensures Reverse(t[..|t| - k]) == Reverse(t)[k..]
  {
    ReverseAppend(t[..|t| - k], t[|t| - k..]);
    assert t[..|t| - k] + t[|t| - k..] == t;
  }

  /** Putting a prefix behind the reversed digits, character by character. */
  lemma PutFits(t: string, c: char)
    requires |t| <= NTOA
    ensures |Put(t, c)| <= NTOA && Reverse(Put(t, c)) == Fitting([c], |t|) + Reverse(t)
  {
    ReverseSnoc(t, c);
  }

  lemma PutTwo(t: string, c: char, d: char)
    requires |t| <= NTOA
    ensures |Put(Put(t, c), d)| <= NTOA && Reverse(Put(Put(t, c), d)) == Fitting([d, c], |t|) + Reverse(t)
  {
    PutFits(t, c);
    PutFits(Put(t, c), d);
    var u := Put(t, c);
    assert Fitting([d], |u|) + Fitting([c], |t|) == Fitting([d, c], |t|);
  }

  lemma PaddedText(v: nat, neg: bool, base: nat, prec: nat, width: nat, f: Flags)
    requires 2 <= base <= 16
    ensures Reverse(Padded(Raw(v, base, f), neg, prec, width, f)) == Zeroed(v, neg, base, prec, width, f)
  {
    hide Digits, Numeral, PadTo, Reverse;
    var d := Raw(v, base, f);
    DigitsNumeral(v, base, f.upper, NTOA);
    assert Reverse("") == "" by { EmptyReverse(); }
    PadToRun(d, prec);
    var p := PadTo(d, prec);
    PadToRun(p, Room(neg, width, f));
  }

  lemma EmptyReverse()
    ensures Reverse("") == ""
  {
  }
  lemma NothingFits(t: string)
    requires |t| <= NTOA
    ensures Fitting("", |t|) + t == t
  {
  }

  lemma MarkIs(v: nat, base: nat, f: Flags)
    ensures MarkOf(v, base, f) == if !f.hash || v == 0 then "" else if base == 16 then ['0', if f.upper then 'X' else 'x'] else if base == 2 then ['0', 'b'] else ['0']
  {
  }

  lemma SignRoom(n: nat, neg: bool, width: nat, f: Flags)
    requires n > 0
    ensures n == Room(neg, width, f) <==> n == if f.zeroPad && !f.left then width - |SignOf(neg, f)| else width
  {
  }

  lemma TakenIs(n: nat, base: nat, prec: nat, w: nat, f: Flags)
    requires n > 0 && (f.precision || prec == 0)
    ensures TakenBack(n, base, prec, w, f) == if f.precision || n != w then 0 else if base == 16 && n > 1 then 2 else 1
  {
  }

  lemma DroppedBy(t: string, v: nat, neg: bool, base: nat, width: nat, f: Flags, k: nat)
    requires t != "" && MarkOf(v, base, f) != ""
    requires var w := if f.zeroPad && !f.left then width - |SignOf(neg, f)| else width;
      k == if f.precision || |t| != w then 0 else if base == 16 && |t| > 1 then 2 else 1
    ensures k <= |t| && Dropped(t, v, neg, base, width, f) == t[k..]
  {
    hide MarkOf, SignOf;
    assert t[0..] == t;
  }

  lemma NotDropped(t: string, v: nat, neg: bool, base: nat, width: nat, f: Flags)
    requires t == "" || MarkOf(v, base, f) == ""
    ensures Dropped(t, v, neg, base, width, f) == t
  {
    hide MarkOf, SignOf;
  }

  lemma DroppedIs(d: string, v: nat, neg: bool, base: nat, prec: nat, width: nat, f: Flags)
    requires f.precision || prec == 0
    ensures var g, t := if v == 0 then f.(hash := false) else f, Dropped(Reverse(d), v, neg, base, width, f);
      if g.hash then t == Reverse(d[..|d| - TakenBack(|d|, base, prec, Room(neg, width, g), g)]) else t == Reverse(d)
  {
    hide Reverse, MarkOf, SignOf, Room, TakenBack, Dropped;
    MarkIs(v, base, f);
    var g := if v == 0 then f.(hash := false) else f;
    if g.hash && d != "" {
      SignRoom(|d|, neg, width, f);
      var k := TakenBack(|d|, base, prec, Room(neg, width, g), g);
      TakenIs(|d|, base, prec, Room(neg, width, g), g);
      ReverseTake(d, k);
      DroppedBy(Reverse(d), v, neg, base, width, f, k);
    } else {
      NotDropped(Reverse(d), v, neg, base, width, f);
    }
  }

  lemma PrefixedText(d: string, v: nat, neg: bool, base: nat, prec: nat, width: nat, f: Flags)
    requires |d| <= NTOA && (f.precision || prec == 0)
    ensures var g, t := if v == 0 then f.(hash := false) else f, Dropped(Reverse(d), v, neg, base, width, f);
      var r := Prefixed(d, base, prec, Room(neg, width, g), g);
      |r| <= NTOA && Reverse(r) == Fitting(MarkOf(v, base, f), |t|) + t
  {
    hide Reverse, Put, Dropped, Fitting, MarkOf, Room, TakenBack;
    var g, t := if v == 0 then f.(hash := false) else f, Dropped(Reverse(d), v, neg, base, width, f);
    DroppedIs(d, v, neg, base, prec, width, f);
    MarkIs(v, base, f);
    if g.hash {
      var u := d[..|d| - TakenBack(|d|, base, prec, Room(neg, width, g), g)];
      PutFits(u, '0');
      PutTwo(u, if base == 16 then (if f.upper then 'X' else 'x') else 'b', '0');
    } else {
      assert Fitting("", |t|) + t == t by { NothingFits(t); }
    }
  }

  lemma SignedText(d: string, neg: bool, f: Flags)
    requires |d| <= NTOA
    ensures |Signed(d, neg, f)| <= NTOA && Reverse(Signed(d, neg, f)) == Fitting(SignOf(neg, f), |d|) + Reverse(d)
  {
    hide Reverse, Put;
    PutFits(d, if neg then '-' else if f.plus then '+' else ' ');
  }

  /** What _ntoa_long and _ntoa_format print of a number. */
  lemma FieldText(v: nat, neg: bool, base: nat, prec: nat, width: nat, f: Flags)
    requires 2 <= base <= 16 && (f.precision || prec == 0)
    ensures Field(v, neg, base, prec, width, f) == NumberText(v, neg, base, prec, width, f)
  {
    hide Reverse, Padded, Raw, Prefixed, Signed, Zeroed, Dropped, Fitting, SignOf, MarkOf, Spaces, Run;
    var g, w := if v == 0 then f.(hash := false) else f, Room(neg, width, f);
    var d := Padded(Raw(v, base, f), neg, prec, width, f);
    PaddedText(v, neg, base, prec, width, f);
    assert Padded(Raw(v, base, f), neg, prec, width, g) == d by { SamePadding(Raw(v, base, f), neg, prec, width, f); }
    PrefixedText(d, v, neg, base, prec, width, f);
    var r := Prefixed(d, base, prec, w, g);
    SignedText(r, neg, f);
    assert Signed(r, neg, g) == Signed(r, neg, f) by { SameSign(r, neg, f); }
    SpacesRun(w - |Signed(r, neg, f)|);
    assert Run(' ', 0 - |Signed(r, neg, f)|) == "";
  }

  lemma SamePadding(d: string, neg: bool, prec: nat, width: nat, f: Flags)
    ensures Padded(d, neg, prec, width, f.(hash := false)) == Padded(d, neg, prec, width, f)
  {
  }

  lemma SameSign(d: string, neg: bool, f: Flags)
    ensures Signed(d, neg, f.(hash := false)) == Signed(d, neg, f)
  {
  }
  // ---- What a directive says -----------------------------------------------------------------

  /** A width or a precision: none, digits, or a star and the argument it takes. */
  datatype Amount = Missing | Written(digits: string) | Star(w: nat)

  /** A directive: %[flags][width][.precision][length]conversion. */
  datatype Request = Request(flags: string, width: Amount, prec: Option<Amount>, length: string, conv: char)

  function Spelt(a: Amount): string {
    match a
    case Missing => ""
    case Written(t) => t
    case Star(_) => "*"
  }

  function Taken(a: Amount): seq<Arg> {
    if a.Star? then [Word(a.w)] else []
  }

  function Dotted(p: Option<Amount>): string {
    if p.Some? then "." + Spelt(p.value) else ""
  }

  /** The directive as it stands in a format. */
  function Spelling(d: Request): (t: string)
    ensures t != ""
  {
    "%" + d.flags + Spelt(d.width) + Dotted(d.prec) + d.length + [d.conv]
  }

  /** The arguments its stars take. */
  function Stars(d: Request): seq<Arg> {
    Taken(d.width) + if d.prec.Some? then Taken(d.prec.value) else []
  }

  predicate AllDigits(t: string) {
    t != "" && forall k :: 0 <= k < |t| ==> '0' <= t[k] <= '9'
  }

  /** The parts are what they are called, and none can be taken for another. */
  predicate Formed(d: Request) {
    && (forall k :: 0 <= k < |d.flags| ==> d.flags[k] in {'0', '-', '+', ' ', '#'})
    && (d.width.Written? ==> AllDigits(d.width.digits) && d.width.digits[0] != '0')
    && (d.prec.Some? && d.prec.value.Written? ==> AllDigits(d.prec.value.digits))
    && d.length in {"", "l", "ll", "h", "hh", "z", "j", "t"}
    && !('0' <= d.conv <= '9') && d.conv !in {'-', '+', ' ', '#', '*', '.', 'l', 'h', 'z', 'j', 't'}
  }

  /** `v` is the signed number on `m` values that `w` is congruent to. */
  predicate TwosComplement(v: int, w: nat, m: nat)
    requires m > 0
  {
    (w - v) % m == 0 && 2 * v < m && 0 <= 2 * v + m
  }

  /** The number an amount stands for, a star's argument being an int. */
  ghost predicate Amounts(a: Amount, n: int) {
    match a
    case Missing => n == 0
    case Written(t) => n == Number(t, 10) % U32
    case Star(w) => TwosComplement(n, w, U32)
  }

  function Magnitude(x: int): nat {
    if x < 0 then -x else x
  }

  // ---- Reading a directive ---------------------------------------------------------------------

  /** `t` stands in the format from `i` on. */
  predicate Stands(fmt: string, i: nat, t: string) {
    i + |t| <= |fmt| && fmt[i..i + |t|] == t
  }

  lemma StandsParts(fmt: string, i: nat, a: string, b: string)
    requires Stands(fmt, i, a + b)
    ensures Stands(fmt, i, a) && Stands(fmt, i + |a|, b)
  {
    var t := fmt[i..i + |a| + |b|];
    assert t[..|a|] == fmt[i..i + |a|] && t[|a|..] == fmt[i + |a|..i + |a| + |b|];
  }

  /** The flags of `f` and those named in `t`. */
  function Named(t: string, f: Flags): Flags {
    Flags(f.zeroPad || '0' in t, f.left || '-' in t, f.plus || '+' in t, f.space || ' ' in t, f.hash || '#' in t,
      f.upper, f.precision)
  }

  lemma NamedStep(t: string, f: Flags)
    requires t != "" && IsFlag(t[0])
    ensures Named(t, f) == Named(t[1..], AddFlag(t[0], f))
  {
    var c, u := t[0], t[1..];
    assert t == [c] + u;
    assert forall x :: x in t <==> x == c || x in u;
  }

  lemma {:induction false} FlagsStand(fmt: string, i: nat, t: string, f: Flags)
    requires Stands(fmt, i, t) && (forall k :: 0 <= k < |t| ==> IsFlag(t[k])) && !IsFlag(At(fmt, i + |t|))
    ensures FlagsAt(fmt, i, f) == (Named(t, f), i + |t|)
    decreases |t|
  {
    hide Named, AddFlag, IsFlag;
    if t != "" {
      StandsParts(fmt, i, t[..1], t[1..]);
      assert t == t[..1] + t[1..] && fmt[i] == t[0];
      FlagsStand(fmt, i + 1, t[1..], AddFlag(t[0], f));
      NamedStep(t, f);
    } else {
      assert Named("", f) == f by { NoneNamed(f); }
    }
  }

  lemma NoneNamed(f: Flags)
    ensures Named("", f) == f
  {
  }

  lemma {:induction false} DigitsStand(fmt: string, i: nat, t: string)
    requires Stands(fmt, i, t) && (forall k :: 0 <= k < |t| ==> '0' <= t[k] <= '9') && !IsDigit(At(fmt, i + |t|))
    ensures DigitsEnd(fmt, i) == i + |t|
    decreases |t|
  {
    if t != "" {
      StandsParts(fmt, i, t[..1], t[1..]);
      assert t == t[..1] + t[1..] && fmt[i] == t[0];
      DigitsStand(fmt, i + 1, t[1..]);
    }
  }

  lemma {:induction false} AtoiNumber(t: string)
    ensures Atoi(t, 0) == Number(t, 10) % U32
    decreases |t|
  {
    hide DigitValue;
    if t != "" {
      AtoiNumber(t[..|t| - 1]);
      assert t[..|t| - 1] + [t[|t| - 1]] == t;
      AtoiSnoc(t[..|t| - 1], t[|t| - 1], 0);
      ModTimesTen(Number(t[..|t| - 1], 10), DigitValue(t[|t| - 1]));
    } else {
      AtoiEmpty(0);
    }
  }

  lemma IntIs(w: nat, n: int)
    requires TwosComplement(n, w, U32)
    ensures AsInt(w) == n
  {
  }

  lemma LongIs(w: nat, n: int)
    requires TwosComplement(n, w, U32 * U32)
    ensures AsLong(w) == n
  {
  }

  lemma WidthStands(fmt: string, i: nat, a: Amount, n: int, f: Flags, args: seq<Arg>)
    requires Stands(fmt, i, Spelt(a)) && (a.Written? ==> AllDigits(a.digits)) && Amounts(a, n)
    requires !IsDigit(At(fmt, i + |Spelt(a)|)) && (a.Missing? ==> At(fmt, i) != '*')
    ensures i <= |fmt| && WidthAt(fmt, i, f, Taken(a) + args)
      == Some(Spec(if n < 0 then f.(left := true) else f, Magnitude(n), 0, Plain, i + |Spelt(a)|, args))
  {
    match a
    case Missing =>
      assert Taken(a) + args == args;
    case Written(t) =>
      assert fmt[i] == fmt[i..i + |t|][0];
      DigitsStand(fmt, i, t);
      AtoiNumber(t);
      assert Taken(a) + args == args;
    case Star(w) =>
      assert fmt[i] == fmt[i..i + 1][0];
      IntIs(w, n);
  }

  lemma PrecisionStands(fmt: string, s: Spec, p: Option<Amount>, n: int, args: seq<Arg>)
    requires Stands(fmt, s.next, Dotted(p)) && s.prec == 0
    requires p.Some? ==> (p.value.Written? ==> AllDigits(p.value.digits)) && Amounts(p.value, n)
    requires p.None? ==> n == 0
    requires var c := At(fmt, s.next + |Dotted(p)|); !IsDigit(c) && c != '.' && c != '*'
    requires s.args == (if p.Some? then Taken(p.value) else []) + args
    ensures PrecisionAt(fmt, s)
      == Some(s.(f := s.f.(precision := s.f.precision || p.Some?), prec := Most(0, n), next := s.next + |Dotted(p)|, args := args))
  {
    if p.Some? {
      StandsParts(fmt, s.next, ".", Spelt(p.value));
      assert fmt[s.next] == fmt[s.next..s.next + 1][0];
      WidthStands(fmt, s.next + 1, p.value, n, s.f, args);
    } else {
      assert s.args == args;
    }
  }
  /** The directive with its width and precision worth `nw` and `np`. */
  ghost predicate Asks(d: Request, nw: int, np: int) {
    Formed(d) && Amounts(d.width, nw) && if d.prec.Some? then Amounts(d.prec.value, np) else np == 0
  }

  /** Its flags; a negative width argument asks for the left. */
  function FlagsOf(d: Request, nw: int): Flags {
    Flags('0' in d.flags, '-' in d.flags || nw < 0, '+' in d.flags, ' ' in d.flags, '#' in d.flags, false, d.prec.Some?)
  }

  function SizeOf(l: string): Size {
    if l == "" then Plain else if l == "h" then Short else if l == "hh" then Char else Long
  }

  // Where the flags, the width and the precision of a directive at `i` end
  function AfterFlags(i: nat, d: Request): nat { i + 1 + |d.flags| }
  function AfterWidth(i: nat, d: Request): nat { AfterFlags(i, d) + |Spelt(d.width)| }
  function AfterPrecision(i: nat, d: Request): nat { AfterWidth(i, d) + |Dotted(d.prec)| }

  /** Where the parts of a directive stand. */
  lemma SpellingStands(fmt: string, i: nat, d: Request)
    requires Stands(fmt, i, Spelling(d))
    ensures i < |fmt| && fmt[i] == '%' && Stands(fmt, i + 1, d.flags) && Stands(fmt, AfterFlags(i, d), Spelt(d.width))
    ensures Stands(fmt, AfterWidth(i, d), Dotted(d.prec)) && Stands(fmt, AfterPrecision(i, d), d.length)
    ensures var n := AfterPrecision(i, d) + |d.length|; n < |fmt| && fmt[n] == d.conv && n + 1 == i + |Spelling(d)|
  {
    hide Spelt, Dotted, Stands;
    var p1, p2, p3, p4 := "%", d.flags, Spelt(d.width), Dotted(d.prec);
    StandsParts(fmt, i, p1 + p2 + p3 + p4 + d.length, [d.conv]);
    StandsParts(fmt, i, p1 + p2 + p3 + p4, d.length);
    StandsParts(fmt, i, p1 + p2 + p3, p4);
    StandsParts(fmt, i, p1 + p2, p3);
    StandsParts(fmt, i, p1, p2);
    StandsAt(fmt, i, "%");
    StandsAt(fmt, AfterPrecision(i, d) + |d.length|, [d.conv]);
  }

  lemma StandsAt(fmt: string, i: nat, t: string)
    requires Stands(fmt, i, t)
    ensures i + |t| <= |fmt| && forall k :: 0 <= k < |t| ==> fmt[i + k] == t[k]
  {
    var u := fmt[i..i + |t|];
    assert forall k :: 0 <= k < |t| ==> u[k] == fmt[i + k];
  }

  /** A part that is not empty is met at its first character. */
  lemma PartAt(fmt: string, i: nat, t: string)
    requires Stands(fmt, i, t)
    ensures At(fmt, i) == if t == "" then At(fmt, i + |t|) else t[0]
  {
    StandsAt(fmt, i, t);
  }

  /** No part runs on into the next. */
  lemma PartsApart(fmt: string, i: nat, d: Request)
    requires Stands(fmt, i, Spelling(d)) && Formed(d)
    ensures !IsFlag(At(fmt, AfterFlags(i, d))) && (d.width.Missing? ==> At(fmt, AfterFlags(i, d)) != '*')
    ensures !IsDigit(At(fmt, AfterWidth(i, d)))
    ensures var c := At(fmt, AfterPrecision(i, d)); !IsDigit(c) && c != '.' && c != '*'
  {
    hide Stands, Spelling;
    SpellingStands(fmt, i, d);
    PartAt(fmt, AfterPrecision(i, d), d.length);
    PartAt(fmt, AfterWidth(i, d), Dotted(d.prec));
    PartAt(fmt, AfterFlags(i, d), Spelt(d.width));
    var c := At(fmt, AfterPrecision(i, d));
    assert c == d.conv || c in {'l', 'h', 'z', 'j', 't'};
  }

  lemma LengthStands(fmt: string, s: Spec, l: string, conv: char)
    requires s.next + |l| < |fmt| && l in {"", "l", "ll", "h", "hh", "z", "j", "t"} && s.size == Plain
    requires Stands(fmt, s.next, l) && fmt[s.next + |l|] == conv
    requires conv != 'l' && conv != 'h' && conv != 'z' && conv != 'j' && conv != 't'
    ensures LengthAt(fmt, s) == s.(size := SizeOf(l), next := s.next + |l|)
  {
    StandsAt(fmt, s.next, l);
    if |l| == 1 {
      assert fmt[s.next] == l[0] && At(fmt, s.next + 1) == conv;
    } else if |l| == 2 {
      assert fmt[s.next] == l[0] && fmt[s.next + 1] == l[1];
    }
  }

  /** A directive is read as what it says, and leads to its conversion. */
  lemma DirectiveStands(fmt: string, i: nat, d: Request, nw: int, np: int, args: seq<Arg>)
    requires Stands(fmt, i, Spelling(d)) && Asks(d, nw, np)
    ensures var s := Spec(FlagsOf(d, nw), Magnitude(nw), Most(0, np), SizeOf(d.length), i + |Spelling(d)| - 1, args);
      && i < |fmt| && fmt[i] == '%' && s.next < |fmt| && fmt[s.next] == d.conv
      && Directive(fmt, i + 1, Stars(d) + args) == Convert(fmt, s)
  {
    hide Stands, Spelling, Convert, FlagsAt, WidthAt, PrecisionAt, LengthAt, Spelt, Dotted, Taken, IsFlag, IsDigit, Amounts, SizeOf, Stars;
    hide AfterFlags, AfterWidth, AfterPrecision;
    SpellingStands(fmt, i, d);
    FlagsPart(fmt, i, d);
    var f, after := Named(d.flags, NO_FLAGS), (if d.prec.Some? then Taken(d.prec.value) else []) + args;
    WidthPart(fmt, i, d, nw, f, after);
    TakenApart(d, args);
    var s := WidthAt(fmt, AfterFlags(i, d), f, Stars(d) + args).value;
    PrecisionPart(fmt, i, d, np, s, args);
    LengthPart(fmt, i, d, PrecisionAt(fmt, s).value);
  }

  lemma TakenApart(d: Request, args: seq<Arg>)
    ensures Stars(d) + args == Taken(d.width) + ((if d.prec.Some? then Taken(d.prec.value) else []) + args)
  {
  }

  lemma FlagsPart(fmt: string, i: nat, d: Request)
    requires Stands(fmt, i, Spelling(d)) && Formed(d)
    ensures FlagsAt(fmt, i + 1, NO_FLAGS) == (Named(d.flags, NO_FLAGS), AfterFlags(i, d))
  {
    hide Stands, Spelling, FlagsAt;
    SpellingStands(fmt, i, d);
    PartsApart(fmt, i, d);
    FlagsStand(fmt, i + 1, d.flags, NO_FLAGS);
  }

  lemma WidthPart(fmt: string, i: nat, d: Request, n: int, f: Flags, args: seq<Arg>)
    requires Stands(fmt, i, Spelling(d)) && Formed(d) && Amounts(d.width, n)
    ensures AfterFlags(i, d) <= |fmt| && WidthAt(fmt, AfterFlags(i, d), f, Taken(d.width) + args)
      == Some(Spec(if n < 0 then f.(left := true) else f, Magnitude(n), 0, Plain, AfterWidth(i, d), args))
  {
    hide Stands, Spelling, WidthAt, Spelt, Taken, Amounts, IsDigit, IsFlag;
    SpellingStands(fmt, i, d);
    PartsApart(fmt, i, d);
    WidthStands(fmt, AfterFlags(i, d), d.width, n, f, args);
  }

  lemma PrecisionPart(fmt: string, i: nat, d: Request, n: int, s: Spec, args: seq<Arg>)
    requires Stands(fmt, i, Spelling(d)) && Formed(d) && s.next == AfterWidth(i, d) && s.prec == 0
    requires if d.prec.Some? then Amounts(d.prec.value, n) else n == 0
    requires s.args == (if d.prec.Some? then Taken(d.prec.value) else []) + args
    ensures s.next <= |fmt| && PrecisionAt(fmt, s) == Some(s.(f := s.f.(precision := s.f.precision || d.prec.Some?), prec := Most(0, n),
      next := AfterPrecision(i, d), args := args))
  {
    hide Spelling, PrecisionAt, Dotted, Taken, Amounts, IsDigit, IsFlag;
    SpellingStands(fmt, i, d);
    PartsApart(fmt, i, d);
    PrecisionStands(fmt, s, d.prec, n, args);
  }

  lemma LengthPart(fmt: string, i: nat, d: Request, s: Spec)
    requires Stands(fmt, i, Spelling(d)) && Formed(d) && s.next == AfterPrecision(i, d) && s.size == Plain
    ensures s.next <= |fmt| && LengthAt(fmt, s) == s.(size := SizeOf(d.length), next := i + |Spelling(d)| - 1)
  {
    hide Stands, Spelling, LengthAt, SizeOf;
    SpellingStands(fmt, i, d);
    LengthStands(fmt, s, d.length, d.conv);
  }

  // ---- What it prints ----------------------------------------------------------------------------

  /** One directive at `i`, then whatever the rest of the format prints. */
  lemma Printing(fmt: string, i: nat, d: Request, nw: int, np: int, args: seq<Arg>, more: seq<Arg>, t: string, tail: string)
    requires Stands(fmt, i, Spelling(d)) && Asks(d, nw, np)
    requires Convert(fmt, Spec(FlagsOf(d, nw), Magnitude(nw), Most(0, np), SizeOf(d.length), i + |Spelling(d)| - 1, args))
      == Some(Piece(t, i + |Spelling(d)|, more))
    requires Render(fmt, i + |Spelling(d)|, more) == Some(tail)
    ensures Render(fmt, i, Stars(d) + args) == Some(t + tail)
  {
    hide Spelling, Convert, Stars, FlagsOf, Formed;
    DirectiveStands(fmt, i, d, nw, np, args);
  }

  /** The argument of an integer conversion as the C type asked for; char is unsigned on RISC-V. */
  predicate Argument(c: char, length: string, m: nat, w: nat, v: int) {
    && Bounded(length, m)
    && if c in {'d', 'i'} && length != "hh" then TwosComplement(v, w, m) else v == w % m
  }

  /** How many values the type named by a length has. */
  predicate Bounded(length: string, m: nat) {
    (length, m) in {("hh", 0x100), ("h", 0x1_0000), ("", U32), ("l", U32 * U32), ("ll", U32 * U32), ("z", U32 * U32),
      ("j", U32 * U32), ("t", U32 * U32)}
  }

  predicate Based(c: char, base: nat) {
    (c, base) in {('d', 10), ('i', 10), ('u', 10), ('x', 16), ('X', 16), ('o', 8), ('b', 2)}
  }

  /** Every integer directive prints its argument's number, in the base of the conversion. */
  lemma IntegerText(fmt: string, i: nat, d: Request, nw: int, np: int, base: nat, m: nat, w: nat, v: int, more: seq<Arg>, tail: string)
    requires Stands(fmt, i, Spelling(d)) && Asks(d, nw, np)
    requires Based(d.conv, base) && Argument(d.conv, d.length, m, w, v)
    requires Render(fmt, i + |Spelling(d)|, more) == Some(tail)
    ensures var signed := d.conv in {'d', 'i'};
      var f := Flags('0' in d.flags && d.prec.None?, '-' in d.flags || nw < 0, signed && '+' in d.flags, signed && ' ' in d.flags,
        '#' in d.flags && base != 10, d.conv == 'X', d.prec.Some?);
      Render(fmt, i, Stars(d) + ([Word(w)] + more))
        == Some(NumberText(Magnitude(v), v < 0, base, Most(0, np), Magnitude(nw), f) + tail)
  {
    hide Spelling, Stars, NumberText, Convert, SizeOf, Argument, Based;
    DirectiveStands(fmt, i, d, nw, np, [Word(w)] + more);
    var s := Spec(FlagsOf(d, nw), Magnitude(nw), Most(0, np), SizeOf(d.length), i + |Spelling(d)| - 1, [Word(w)] + more);
    ConvertInteger(fmt, s, d.conv, base, d.length, m, w, v, more);
    Printing(fmt, i, d, nw, np, [Word(w)] + more, more, Convert(fmt, s).value.text, tail);
  }

  lemma BoundIs(length: string, m: nat)
    requires Bounded(length, m)
    ensures m == match SizeOf(length) case Char => 0x100 case Short => 0x1_0000 case Plain => U32 case Long => U32 * U32
    ensures SizeOf(length).Char? <==> length == "hh"
  {
  }

  lemma ShortIs(w: nat, n: int)
    requires TwosComplement(n, w, 0x1_0000)
    ensures n == if w % 0x1_0000 < 0x8000 then w % 0x1_0000 else w % 0x1_0000 - 0x1_0000
  {
  }

  lemma NarrowIs(c: char, length: string, m: nat, w: nat, v: int)
    requires Argument(c, length, m, w, v)
    ensures Narrow(c, SizeOf(length), w) == v
  {
    hide Bounded, SizeOf, TwosComplement, AsInt, AsLong;
    BoundIs(length, m);
    if c in {'d', 'i'} {
      match SizeOf(length)
      case Long => LongIs(w, v);
      case Plain => IntIs(w, v);
      case Short => ShortIs(w, v);
      case Char =>
    }
  }

  lemma ConversionIs(c: char, base: nat, f: Flags)
    requires Based(c, base) && !f.upper
    ensures IsInteger(c) && BaseOf(c) == base && c !in {'f', 'F', 'e', 'E', 'g', 'G'} && 2 <= base <= 16
    ensures IntegerFlags(c, f) == Flags(f.zeroPad && !f.precision, f.left, c in {'d', 'i'} && f.plus, c in {'d', 'i'} && f.space,
      f.hash && base != 10, c == 'X', f.precision)
  {
  }

  lemma ConvertInteger(fmt: string, s: Spec, c: char, base: nat, length: string, m: nat, w: nat, v: int, more: seq<Arg>)
    requires s.next < |fmt| && fmt[s.next] == c && Based(c, base) && s.size == SizeOf(length) && Argument(c, length, m, w, v)
    requires s.args == [Word(w)] + more && !s.f.upper && (s.f.precision || s.prec == 0)
    ensures var signed := c in {'d', 'i'};
      var f := Flags(s.f.zeroPad && !s.f.precision, s.f.left, signed && s.f.plus, signed && s.f.space, s.f.hash && base != 10, c == 'X',
        s.f.precision);
      Convert(fmt, s) == Some(Piece(NumberText(Magnitude(v), v < 0, base, s.prec, s.width, f), s.next + 1, more))
  {
    hide NumberText, Field, Argument, Narrow, Based, IntegerFlags, SizeOf;
    NarrowIs(c, length, m, w, v);
    ConversionIs(c, base, s.f);
    FieldText(Magnitude(v), v < 0, base, s.prec, s.width, IntegerFlags(c, s.f));
    assert s.args[1..] == more && s.args[0] == Word(w);
  }

  lemma BoxedAligned(s: Spec, t: string)
    ensures Boxed(s, t) == Aligned(t, s.width, s.f.left)
  {
    hide Spaces;
    SpacesRun(s.width - |t|);
    var pad := Spaces(s.width - |t|);
    assert "" + t + pad == t + pad && pad + t + "" == pad + t;
  }

  lemma ConvertCharacter(fmt: string, s: Spec, w: nat, more: seq<Arg>)
    requires s.next < |fmt| && fmt[s.next] == 'c' && s.args == [Word(w)] + more
    ensures Convert(fmt, s) == Some(Piece(Aligned([(w % 0x100) as char], s.width, s.f.left), s.next + 1, more))
  {
    hide Boxed, Aligned;
    BoxedAligned(s, [(w % 0x100) as char]);
    assert s.args[1..] == more && s.args[0] == Word(w);
  }

  lemma ConvertString(fmt: string, s: Spec, t: string, more: seq<Arg>)
    requires s.next < |fmt| && fmt[s.next] == 's' && s.args == [Text(t)] + more
    ensures var u := if s.f.precision && s.prec < |t| then t[..s.prec] else t;
      Convert(fmt, s) == Some(Piece(Aligned(u, s.width, s.f.left), s.next + 1, more))
  {
    hide Boxed, Aligned;
    BoxedAligned(s, if s.f.precision && s.prec < |t| then t[..s.prec] else t);
    assert t[..|t|] == t;
    assert s.args[1..] == more && s.args[0] == Text(t);
  }

  lemma ConvertPointer(fmt: string, s: Spec, w: nat, more: seq<Arg>)
    requires s.next < |fmt| && fmt[s.next] == 'p' && s.args == [Word(w)] + more && (s.f.precision || s.prec == 0)
    ensures var f := s.f.(zeroPad := true, upper := true);
      Convert(fmt, s) == Some(Piece(NumberText(w % (U32 * U32), false, 16, s.prec, 16, f), s.next + 1, more))
  {
    hide NumberText, Field;
    FieldText(w % (U32 * U32), false, 16, s.prec, 16, s.f.(zeroPad := true, upper := true));
    assert s.args[1..] == more && s.args[0] == Word(w);
  }

  lemma ConvertOther(fmt: string, s: Spec, c: char)
    requires s.next < |fmt| && fmt[s.next] == c
    requires c !in {'d', 'i', 'u', 'x', 'X', 'o', 'b', 'c', 's', 'p', 'f', 'F', 'e', 'E', 'g', 'G'}
    ensures Convert(fmt, s) == Some(Piece([c], s.next + 1, s.args))
  {
  }

  /** %c is one character, set to the left or right of its width. */
  lemma CharacterText(fmt: string, i: nat, d: Request, nw: int, np: int, w: nat, more: seq<Arg>, tail: string)
    requires Stands(fmt, i, Spelling(d)) && Asks(d, nw, np) && d.conv == 'c'
    requires Render(fmt, i + |Spelling(d)|, more) == Some(tail)
    ensures Render(fmt, i, Stars(d) + ([Word(w)] + more))
      == Some(Aligned([(w % 0x100) as char], Magnitude(nw), '-' in d.flags || nw < 0) + tail)
  {
    hide Spelling, Stars, Aligned, Convert, SizeOf;
    DirectiveStands(fmt, i, d, nw, np, [Word(w)] + more);
    var s := Spec(FlagsOf(d, nw), Magnitude(nw), Most(0, np), SizeOf(d.length), i + |Spelling(d)| - 1, [Word(w)] + more);
    ConvertCharacter(fmt, s, w, more);
    Printing(fmt, i, d, nw, np, [Word(w)] + more, more, Convert(fmt, s).value.text, tail);
  }

  /** %s is the string, or as much of it as the precision says, set in its width. */
  lemma StringText(fmt: string, i: nat, d: Request, nw: int, np: int, s: string, more: seq<Arg>, tail: string)
    requires Stands(fmt, i, Spelling(d)) && Asks(d, nw, np) && d.conv == 's'
    requires Render(fmt, i + |Spelling(d)|, more) == Some(tail)
    ensures var t := if d.prec.Some? && np < |s| then s[..Most(0, np)] else s;
      Render(fmt, i, Stars(d) + ([Text(s)] + more)) == Some(Aligned(t, Magnitude(nw), '-' in d.flags || nw < 0) + tail)
  {
    hide Spelling, Stars, Aligned, Convert, SizeOf;
    DirectiveStands(fmt, i, d, nw, np, [Text(s)] + more);
    var sp := Spec(FlagsOf(d, nw), Magnitude(nw), Most(0, np), SizeOf(d.length), i + |Spelling(d)| - 1, [Text(s)] + more);
    ConvertString(fmt, sp, s, more);
    Printing(fmt, i, d, nw, np, [Text(s)] + more, more, Convert(fmt, sp).value.text, tail);
  }

  /** %p is a number in capital hexadecimal digits, sixteen of them with zeros. */
  lemma PointerText(fmt: string, i: nat, d: Request, nw: int, np: int, w: nat, more: seq<Arg>, tail: string)
    requires Stands(fmt, i, Spelling(d)) && Asks(d, nw, np) && d.conv == 'p'
    requires Render(fmt, i + |Spelling(d)|, more) == Some(tail)
    ensures var f := FlagsOf(d, nw).(zeroPad := true, upper := true);
      Render(fmt, i, Stars(d) + ([Word(w)] + more)) == Some(NumberText(w % (U32 * U32), false, 16, Most(0, np), 16, f) + tail)
  {
    hide Spelling, Stars, Convert, SizeOf, NumberText;
    DirectiveStands(fmt, i, d, nw, np, [Word(w)] + more);
    var s := Spec(FlagsOf(d, nw), Magnitude(nw), Most(0, np), SizeOf(d.length), i + |Spelling(d)| - 1, [Word(w)] + more);
    ConvertPointer(fmt, s, w, more);
    Printing(fmt, i, d, nw, np, [Word(w)] + more, more, Convert(fmt, s).value.text, tail);
  }

  /** Any other character stands for itself, '%' among them. */
  lemma OtherText(fmt: string, i: nat, d: Request, nw: int, np: int, more: seq<Arg>, tail: string)
    requires Stands(fmt, i, Spelling(d)) && Asks(d, nw, np)
    requires d.conv !in {'d', 'i', 'u', 'x', 'X', 'o', 'b', 'c', 's', 'p', 'f', 'F', 'e', 'E', 'g', 'G'}
    requires Render(fmt, i + |Spelling(d)|, more) == Some(tail)
    ensures Render(fmt, i, Stars(d) + more) == Some([d.conv] + tail)
  {
    hide Spelling, Stars, Convert, SizeOf, Formed;
    DirectiveStands(fmt, i, d, nw, np, more);
    var s := Spec(FlagsOf(d, nw), Magnitude(nw), Most(0, np), SizeOf(d.length), i + |Spelling(d)| - 1, more);
    ConvertOther(fmt, s, d.conv);
    Printing(fmt, i, d, nw, np, more, more, [d.conv], tail);
  }

  lemma Copied(fmt: string, i: nat, args: seq<Arg>, rest: string)
    requires i < |fmt| && fmt[i] != '%' && Render(fmt, i + 1, args) == Some(rest)
    ensures Render(fmt, i, args) == Some([fmt[i]] + rest)
  {
  }

  /** Text without a directive is copied. */
  lemma {:induction false} PlainText(fmt: string, i: nat, t: string, args: seq<Arg>, tail: string)
    requires Stands(fmt, i, t) && '%' !in t && Render(fmt, i + |t|, args) == Some(tail)
    ensures Render(fmt, i, args) == Some(t + tail)
    decreases |t|
  {
    hide Render, Stands;
    if t != "" {
      StandsAt(fmt, i, t);
      assert t == [t[0]] + t[1..];
      StandsParts(fmt, i, [t[0]], t[1..]);
      PlainText(fmt, i + 1, t[1..], args, tail);
      Copied(fmt, i, args, t[1..] + tail);
      assert [t[0]] + (t[1..] + tail) == t + tail;
    } else {
      assert t + tail == tail;
    }
  }
  // ---- The common cases ----------------------------------------------------------------------------

  /** Nothing but the length and the conversion. */
  function Bare(length: string, c: char): Request {
    Request("", Missing, None, length, c)
  }

  lemma BareAsks(length: string, c: char)
    requires Formed(Bare(length, c))
    ensures Asks(Bare(length, c), 0, 0) && Stars(Bare(length, c)) == []
    ensures Spelling(Bare(length, c)) == "%" + length + [c]
    ensures Stands("%" + length + [c], 0, Spelling(Bare(length, c)))
  {
    var t := "%" + length + [c];
    assert t[0..|t|] == t;
  }

  /** Without a flag, a width or a precision: the sign and the digits. */
  lemma BareNumber(length: string, c: char, base: nat, m: nat, w: nat, v: int)
    requires Based(c, base) && Argument(c, length, m, w, v)
    ensures Render("%" + length + [c], 0, [Word(w)])
      == Some((if v < 0 then "-" else "") + Last(Numeral(Magnitude(v), base, c == 'X'), NTOA))
  {
    hide NumberText, Numeral, Last, Spelling, Stars, Argument, Based, Bounded, Formed, Asks, Render;
    var fmt, d := "%" + length + [c], Bare(length, c);
    BareFormed(length, c, m, base, w, v);
    BareAsks(length, c);
    NoMore(fmt);
    IntegerText(fmt, 0, d, 0, 0, base, m, w, v, [], "");
    assert [] + ([Word(w)] + []) == [Word(w)];
    NegativeLength(length, c, base, m, w, v);
    BareText(Magnitude(v), v < 0, base, Flags(false, false, false, false, false, c == 'X', false));
    var t := NumberText(Magnitude(v), v < 0, base, 0, 0, Flags(false, false, false, false, false, c == 'X', false));
    assert t + "" == t;
  }

  lemma NoMore(fmt: string)
    ensures Render(fmt, |fmt|, []) == Some("")
  {
  }

  lemma NegativeLength(length: string, c: char, base: nat, m: nat, w: nat, v: int)
    requires Based(c, base) && Argument(c, length, m, w, v)
    ensures 2 <= base <= 16 && Magnitude(v) < U32 * U32 && (v < 0 ==> |Numeral(Magnitude(v), base, c == 'X')| < NTOA)
  {
    hide Power, Numeral;
    Powers();
    if v < 0 {
      NumeralLength(Magnitude(v), base, c == 'X', 31);
    }
  }

  lemma BareFormed(length: string, c: char, m: nat, base: nat, w: nat, v: int)
    requires Argument(c, length, m, w, v) && Based(c, base)
    ensures Formed(Bare(length, c)) && c !in {'c', 's', 'p'}
  {
  }

  /** A numeral has as many digits as its value needs. */
  lemma {:induction false} NumeralLength(v: nat, base: nat, upper: bool, k: nat)
    requires 2 <= base <= 16 && k > 0
    ensures |Numeral(v, base, upper)| <= k <==> v < Power(base, k)
    decreases k
  {
    hide DigitChar, DigitValue, Numeral, IsStep;
    var digit, rest := NextDigit(v, base);
    NumeralStep(v, base, upper, digit, rest);
    assert Power(base, k) == base * Power(base, k - 1);
    if k > 1 {
      if rest > 0 {
        NumeralLength(rest, base, upper, k - 1);
      }
      DigitsBack(0, base, upper, k - 1);
      RestBelow(v, base, digit, rest, Power(base, k - 1));
    } else {
      assert Power(base, 0) == 1;
      if rest > 0 {
        assert v >= base;
      }
    }
  }

  lemma RestBelow(v: nat, base: nat, digit: nat, rest: nat, p: nat)
    requires base > 0 && v == rest * base + digit && digit < base && p > 0
    ensures v < base * p <==> rest < p
  {
    if rest < p {
      MulMono(rest + 1, p, base);
    } else {
      MulMono(p, rest, base);
    }
  }

  /** The last digits stand for what is left over. */
  lemma LastRead(v: nat, base: nat, upper: bool, n: nat)
    requires 2 <= base <= 16
    ensures Power(base, n) > 0 && Number(Last(Numeral(v, base, upper), n), base) == v % Power(base, n)
  {
    DigitsNumeral(v, base, upper, n);
    DigitsBack(v, base, upper, n);
    ValueNumber(Digits(v, base, upper, n), base);
  }

  lemma ReverseFirst(d: string)
    requires d != ""
    ensures Reverse(d) == Reverse(d[1..]) + [d[0]]
  {
  }

  lemma NothingRead(base: nat)
    ensures Number(Reverse(""), base) == Value("", base)
  {
  }

  lemma {:induction false} ValueNumber(d: string, base: nat)
    ensures Number(Reverse(d), base) == Value(d, base)
    decreases |d|
  {
    hide DigitValue, Number, Value, Reverse;
    if d != "" {
      ValueNumber(d[1..], base);
      assert d == [d[0]] + d[1..];
      ValueCons(d[0], d[1..], base);
      ReverseFirst(d);
      NumberSnoc(Reverse(d[1..]), d[0], base);
      assert base * Value(d[1..], base) == Value(d[1..], base) * base;
    } else {
      assert Number(Reverse(""), base) == Value("", base) by { NothingRead(base); }
    }
  }

  lemma BareText(v: nat, neg: bool, base: nat, f: Flags)
    requires 2 <= base <= 16 && f == Flags(false, false, false, false, false, f.upper, false)
    requires neg ==> |Numeral(v, base, f.upper)| < NTOA
    ensures NumberText(v, neg, base, 0, 0, f) == (if neg then "-" else "") + Last(Numeral(v, base, f.upper), NTOA)
  {
    hide Numeral, Zeroed, Last, Run;
    var t := Last(Numeral(v, base, f.upper), NTOA);
    BareDigits(v, neg, base, f);
    assert Dropped(t, v, neg, base, 0, f) == t;
    NothingFits(t);
    FittingSign(neg, f, t);
    var w := (if neg then "-" else "") + t;
    assert Aligned(w, 0, false) == w by { NothingLeft(w); }
  }

  lemma FittingSign(neg: bool, f: Flags, t: string)
    requires |t| <= NTOA && (neg ==> |t| < NTOA) && !f.plus && !f.space
    ensures Fitting(SignOf(neg, f), |t|) == if neg then "-" else ""
  {
  }

  lemma NothingLeft(w: string)
    ensures Aligned(w, 0, false) == w
  {
    assert Run(' ', 0 - |w|) + w == w;
  }

  lemma BareDigits(v: nat, neg: bool, base: nat, f: Flags)
    requires 2 <= base <= 16 && f == Flags(false, false, false, false, false, f.upper, false)
    ensures Zeroed(v, neg, base, 0, 0, f) == Last(Numeral(v, base, f.upper), NTOA)
  {
    hide Numeral;
    var t := Last(Numeral(v, base, f.upper), NTOA);
    assert Run('0', 0 - |t|) + t == t;
  }

  lemma Powers()
    ensures Power(10, 31) > U32 * U32 && Power(16, 32) > U32 * U32 && Power(8, 32) > U32 * U32 && Power(2, 32) == U32
    ensures Power(10, 32) > U32 * U32
  {
    hide Power;
    SixteenTo16();
    TenTo20();
    PowerAdd(16, 16, 16);
    PowerAdd(10, 20, 11);
    PowerAdd(10, 20, 12);
    PowerAdd(8, 8, 8);
    PowerAdd(8, 16, 16);
    PowerAdd(2, 8, 8);
    PowerAdd(2, 16, 16);
    DigitsBack(0, 10, false, 11);
    DigitsBack(0, 10, false, 12);
    SmallPowers();
    assert Power(16, 32) == (U32 * U32) * (U32 * U32);
    MulMono(1, Power(10, 11), Power(10, 20));
    MulMono(1, Power(10, 12), Power(10, 20));
  }

  lemma SmallPowers()
    ensures Power(8, 8) == 0x100_0000 && Power(2, 8) == 0x100
  {
    assert Power(8, 4) == 0x1000;
    assert Power(2, 4) == 16;
    PowerAdd(8, 4, 4);
    PowerAdd(2, 4, 4);
  }
  /** %u, %x, %X, %o and %b read back, in their bases, as the argument of the length's type; %b only its low 32 bits. */
  lemma UnsignedReads(length: string, c: char, base: nat, m: nat, w: nat)
    requires Bounded(length, m) && Based(c, base) && c !in {'d', 'i'} && m > 0
    ensures var r := Render("%" + length + [c], 0, [Word(w)]);
      r.Some? && Number(r.value, base) == if c == 'b' then w % m % U32 else w % m
  {
    hide Number, Numeral, Last, Render, Power, Based, Bounded;
    BaseCases(c, base);
    BoundBelow(length, m);
    Below(w, m);
    BareNumber(length, c, base, m, w, w % m);
    var t := Last(Numeral(w % m, base, c == 'X'), NTOA);
    assert "" + t == t;
    LastRead(w % m, base, c == 'X', NTOA);
    Powers();
    if c != 'b' {
      SmallMod(w % m, Power(base, NTOA));
    }
  }

  lemma BaseCases(c: char, base: nat)
    requires Based(c, base)
    ensures base in {2, 8, 10, 16} && (base == 2 <==> c == 'b')
  {
  }

  lemma BoundBelow(length: string, m: nat)
    requires Bounded(length, m)
    ensures 0 < m <= U32 * U32
  {
  }

  lemma Below(w: nat, m: nat)
    requires m > 0
    ensures 0 <= w % m < m
  {
  }

  lemma SmallMod(x: nat, p: nat)
    requires x < p
    ensures x % p == x
  {
  }

  /** %d and %i are the sign and the decimal digits of the two's complement number. */
  lemma SignedReads(length: string, c: char, m: nat, w: nat, v: int)
    requires c in {'d', 'i'} && Argument(c, length, m, w, v)
    ensures var r := Render("%" + length + [c], 0, [Word(w)]);
      r.Some? && r.value != "" && (r.value[0] == '-' <==> v < 0) && Number(if v < 0 then r.value[1..] else r.value, 10) == Magnitude(v)
  {
    hide Number, Numeral, Last, Render, Power, Argument;
    BareNumber(length, c, 10, m, w, v);
    NegativeLength(length, c, 10, m, w, v);
    var t := Last(Numeral(Magnitude(v), 10, false), NTOA);
    LastRead(Magnitude(v), 10, false, NTOA);
    Powers();
    SmallMod(Magnitude(v), Power(10, NTOA));
    assert ("-" + t)[1..] == t && "" + t == t;
    FirstDigit(Magnitude(v), 10, false, NTOA);
  }

  /** Digits are digits. */
  lemma FirstDigit(v: nat, base: nat, upper: bool, n: nat)
    requires 2 <= base <= 16 && n > 0
    ensures Last(Numeral(v, base, upper), n) != "" && Last(Numeral(v, base, upper), n)[0] != '-'
  {
    hide Numeral;
    NoDash(v, base, upper);
    var t := Numeral(v, base, upper);
    assert t[|t| - Least(n, |t|)] in t;
  }

  lemma {:induction false} NoDash(v: nat, base: nat, upper: bool)
    requires 2 <= base <= 16
    ensures '-' !in Numeral(v, base, upper)
  {
    hide Numeral, IsStep;
    var digit, rest := NextDigit(v, base);
    NumeralStep(v, base, upper, digit, rest);
    if rest > 0 {
      NoDash(rest, base, upper);
    }
  }

  /** The precision is the least number of digits unless it is over 32 or '-' sets it aside. */
  lemma PrecisionKept(v: nat, neg: bool, base: nat, prec: nat, width: nat, f: Flags)
    requires 2 <= base <= 16 && f.precision && !f.zeroPad && v > 0
    ensures |Zeroed(v, neg, base, prec, width, f)| >= prec
      <==> prec <= NTOA && (f.left ==> prec <= |Numeral(v, base, f.upper)|)
  {
    hide Numeral;
  }

  // ---- In so many words ---------------------------------------------------------------------------

  lemma SpellsIt(t: string, d: Request)
    requires Spelling(d) == t
    ensures Stands(t, 0, Spelling(d)) && Render(t, |t|, []) == Some("")
  {
    assert t[0..|t|] == t;
  }

  lemma NoStars(d: Request, x: Arg)
    requires !d.width.Star? && (d.prec.Some? ==> !d.prec.value.Star?)
    ensures Stars(d) + ([x] + []) == [x]
  {
  }

  lemma IntegerAlone(d: Request, nw: nat, np: nat, w: nat, v: nat, f: Flags)
    requires Asks(d, nw, np) && !d.width.Star? && (d.prec.Some? ==> !d.prec.value.Star?)
    requires d.conv == 'd' && d.length == "" && v == w < 0x8000_0000
    requires f == Flags('0' in d.flags && d.prec.None?, '-' in d.flags, '+' in d.flags, ' ' in d.flags, false, false, d.prec.Some?)
    ensures Render(Spelling(d), 0, [Word(w)]) == Some(NumberText(v, false, 10, np, nw, f))
  {
    hide Render, NumberText, Stars, Stands, Spelling;
    SpellsIt(Spelling(d), d);
    NoStars(d, Word(w));
    IntegerText(Spelling(d), 0, d, nw, np, 10, U32, w, v, [], "");
    assert NumberText(v, false, 10, np, nw, f) + "" == NumberText(v, false, 10, np, nw, f);
  }

  lemma Beef(upper: bool)
    ensures Last(Numeral(0xBEEF, 16, upper), NTOA) == if upper then "BEEF" else "beef"
  {
    assert Numeral(0xB, 16, upper) == if upper then "B" else "b";
    assert Numeral(0xBE, 16, upper) == if upper then "BE" else "be";
    assert Numeral(0xBEE, 16, upper) == if upper then "BEE" else "bee";
  }

  lemma Decimals()
    ensures Numeral(1, 10, false) == "1" && Numeral(255, 10, false) == "255" && Numeral(42, 10, false) == "42"
  {
    assert Numeral(2, 10, false) == "2" && Numeral(25, 10, false) == "25" && Numeral(4, 10, false) == "4";
  }

  lemma HexSample()
    ensures Render("%x", 0, [Word(0xBEEF)]) == Some("beef") && Render("%lX", 0, [Word(0xBEEF)]) == Some("BEEF")
  {
    hide Render, Numeral, Last;
    BareNumber("", 'x', 16, U32, 0xBEEF, 0xBEEF);
    BareNumber("l", 'X', 16, U32 * U32, 0xBEEF, 0xBEEF);
    assert "%" + "" + ['x'] == "%x" && "%" + "l" + ['X'] == "%lX";
    Beef(false);
    Beef(true);
    assert "" + "beef" == "beef" && "" + "BEEF" == "BEEF";
  }

  lemma DecimalSample()
    ensures Render("%d", 0, [Word(0xFFFF_FFFF)]) == Some("-1") && Render("%hhd", 0, [Word(0xFFFF_FFFF)]) == Some("255")
  {
    hide Render, Numeral;
    BareNumber("", 'd', 10, U32, 0xFFFF_FFFF, -1);
    BareNumber("hh", 'd', 10, 0x100, 0xFFFF_FFFF, 255);
    assert "%" + "" + ['d'] == "%d" && "%" + "hh" + ['d'] == "%hhd";
    Decimals();
    assert Last("1", NTOA) == "1" && Last("255", NTOA) == "255" && "" + "255" == "255" && "-" + "1" == "-1";
  }

  lemma OneDigit(c: char)
    requires '0' <= c <= '9'
    ensures Number([c], 10) == (c - '0') as nat
  {
    assert [c] == "" + [c];
    NumberSnoc("", c, 10);
  }

  lemma AlignedSample()
    ensures Aligned("A", 5, false) == "    A" && Aligned("abc", 5, true) == "abc  "
  {
  }

  lemma CharacterSample()
    ensures Render("%5c", 0, [Word(65)]) == Some("    A")
  {
    hide Render, Stars, Stands, Aligned;
    var d := Request("", Written("5"), None, "", 'c');
    SpellsIt("%5c", d);
    NoStars(d, Word(65));
    assert Number("5", 10) == 5 by { OneDigit('5'); }
    CharacterText("%5c", 0, d, 5, 0, 65, [], "");
    assert Aligned("A", 5, false) == "    A" by { AlignedSample(); }
    assert "    A" + "" == "    A";
  }

  lemma StringSample()
    ensures Render("%-5.3s", 0, [Text("abcdef")]) == Some("abc  ")
  {
    hide Render, Stars, Stands, Aligned;
    var d := Request("-", Written("5"), Some(Written("3")), "", 's');
    SpellsIt("%-5.3s", d);
    NoStars(d, Text("abcdef"));
    OneDigit('5');
    OneDigit('3');
    StringText("%-5.3s", 0, d, 5, 3, "abcdef", [], "");
    AlignedSample();
    assert "abcdef"[..3] == "abc" && "abc  " + "" == "abc  ";
  }

  lemma PointerSample()
    ensures Render("%p", 0, [Word(0xBEEF)]) == Some("000000000000BEEF")
  {
    hide Render, NumberText, Stars, Stands;
    var d := Request("", Missing, None, "", 'p');
    SpellsIt("%p", d);
    NoStars(d, Word(0xBEEF));
    PointerText("%p", 0, d, 0, 0, 0xBEEF, [], "");
    var f := Flags(true, false, false, false, false, true, false);
    PointerDigits(f);
    assert "000000000000BEEF" + "" == "000000000000BEEF";
  }

  lemma PointerDigits(f: Flags)
    requires f == Flags(true, false, false, false, false, true, false)
    ensures NumberText(0xBEEF, false, 16, 0, 16, f) == "000000000000BEEF"
  {
    hide Numeral, Last;
    Beef(true);
    assert Zeroed(0xBEEF, false, 16, 0, 16, f) == "000000000000BEEF";
  }

  lemma FortyTwo(f: Flags)
    requires f == Flags(false, f.left, false, false, false, false, true)
    ensures NumberText(42, false, 10, 4, 0, f) == if f.left then "42" else "0042"
  {
    hide Numeral;
    Decimals();
    assert Zeroed(42, false, 10, 4, 0, f) == if f.left then "42" else "0042";
  }

  /** '-' sets the precision of a number aside. */
  lemma LeftSample()
    ensures Render("%.4d", 0, [Word(42)]) == Some("0042") && Render("%-.4d", 0, [Word(42)]) == Some("42")
  {
    hide Render, NumberText, Stars;
    var d, e := Request("", Missing, Some(Written("4")), "", 'd'), Request("-", Missing, Some(Written("4")), "", 'd');
    var f, g := Flags(false, false, false, false, false, false, true), Flags(false, true, false, false, false, false, true);
    OneDigit('4');
    IntegerAlone(d, 0, 4, 42, 42, f);
    IntegerAlone(e, 0, 4, 42, 42, g);
    FortyTwo(f);
    FortyTwo(g);
    assert Spelling(d) == "%.4d" && Spelling(e) == "%-.4d";
  }
}
