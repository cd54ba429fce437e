/** Integer fields of printf.c: digits, padding, prefixes and signs (printf.c:183-301). */
module Numbers {
  import opened Arithmetic

  const NTOA := 32        // PRINTF_NTOA_BUFFER_SIZE

  /** The FLAGS_ bits the integer path looks at. */
  datatype Flags = Flags(zeroPad: bool, left: bool, plus: bool, space: bool, hash: bool, upper: bool, precision: bool)

  // ---- What a field is ---------------------------------------------------------------------

  predicate IsDigit(c: char) {
    '0' <= c <= '9'
  }

  function DigitChar(d: nat, upper: bool): char
    requires d < 16
  {
    if d < 10 then '0' + d as char else (if upper then 'A' else 'a') + (d - 10) as char
  }

  function DigitValue(c: char): nat {
    if IsDigit(c) then (c - '0') as nat
    else if 'a' <= c <= 'f' then (c - 'a') as nat + 10
    else if 'A' <= c <= 'F' then (c - 'A') as nat + 10
    else 0
  }

  /** At most `max` digits, least significant first. */
  function Digits(v: nat, base: nat, upper: bool, max: nat): (d: string)
    requires 2 <= base <= 16
    ensures |d| <= max
    decreases max
  {
    if max == 0 then "" else [DigitChar(v % base, upper)] + if v / base == 0 then "" else Digits(v / base, base, upper, max - 1)
  }

  /** The number whose digits `d` are, least significant first. */
  function Value(d: string, base: nat): nat {
    if d == "" then 0 else DigitValue(d[0]) + base * Value(d[1..], base)
  }

  function Power(b: nat, e: nat): nat {
    if e == 0 then 1 else b * Power(b, e - 1)
  }

  function PadTo(d: string, n: nat): (r: string)
    ensures |r| == if |d| < n && |d| < NTOA then (if n < NTOA then n else NTOA) else |d|
    ensures d <= r && forall i :: |d| <= i < |r| ==> r[i] == '0'
    decreases n - |d|
  {
    if |d| < n && |d| < NTOA then PadTo(d + "0", n) else d
  }

  function Put(d: string, c: char): string {
    if |d| < NTOA then d + [c] else d
  }

  /** The width left for padding: one less when a sign will follow zeros. */
  function Room(neg: bool, width: nat, f: Flags): nat {
    if !f.left && width > 0 && f.zeroPad && (neg || f.plus || f.space) then width - 1 else width
  }

  function Padded(d: string, neg: bool, prec: nat, width: nat, f: Flags): string {
    if f.left then d
    else
      var p := PadTo(d, prec);
      if f.zeroPad then PadTo(p, Room(neg, width, f)) else p
  }

  /** How many characters the '#' form takes back off a field that is already full. */
  function TakenBack(len: nat, base: nat, prec: nat, width: nat, f: Flags): (k: nat)
    ensures k <= len
  {
    if f.precision || len == 0 || (len != prec && len != width) then 0 else if len > 1 && base == 16 then 2 else 1
  }

  function Prefixed(d: string, base: nat, prec: nat, width: nat, f: Flags): string {
    if !f.hash then d
    else
      var t := d[..|d| - TakenBack(|d|, base, prec, width, f)];
      var u := if base == 16 then Put(t, if f.upper then 'X' else 'x') else if base == 2 then Put(t, 'b') else t;
      Put(u, '0')
  }

  function Signed(d: string, neg: bool, f: Flags): string {
    if neg then Put(d, '-') else if f.plus then Put(d, '+') else if f.space then Put(d, ' ') else d
  }

  function Spaces(n: int): (r: string) {
    if n <= 0 then "" else Spaces(n - 1) + " "
  }

  function Reverse(s: string): (r: string)
    ensures |r| == |s|
  {
    if s == "" then "" else Reverse(s[1..]) + [s[0]]
  }

  /** What _out_rev writes. */
  function Laid(buf: string, width: nat, f: Flags): string {
    (if !f.left && !f.zeroPad then Spaces(width - |buf|) else "") + Reverse(buf) + if f.left then Spaces(width - |buf|) else ""
  }

  /** What _ntoa_format writes. */
  function Formatted(d: string, neg: bool, base: nat, prec: nat, width: nat, f: Flags): string {
    var w := Room(neg, width, f);
    Laid(Signed(Prefixed(Padded(d, neg, prec, width, f), base, prec, w, f), neg, f), w, f)
  }

  /** The digits _ntoa_long makes, least significant first. */
  function Raw(v: nat, base: nat, f: Flags): string
    requires 2 <= base <= 16
  {
    if f.precision && v == 0 then "" else Digits(v, base, f.upper, NTOA)
  }

  /** What _ntoa_long writes. */
  function Field(v: nat, neg: bool, base: nat, prec: nat, width: nat, f: Flags): string
    requires 2 <= base <= 16
  {
    Formatted(Raw(v, base, f), neg, base, prec, width, if v == 0 then f.(hash := false) else f)
  }

  // ---- Digits read back --------------------------------------------------------------------

  lemma DigitBack(d: nat, upper: bool)
    requires d < 16
    ensures DigitValue(DigitChar(d, upper)) == d
    ensures d < 10 ==> IsDigit(DigitChar(d, upper))
  {
  }

  /** One digit split off. */
  predicate IsStep(v: nat, base: nat, digit: nat, rest: nat)
    requires base > 0
  {
    digit == v % base && rest == v / base
  }

  lemma DigitsUnfold(v: nat, base: nat, upper: bool, max: nat, digit: nat, rest: nat)
    requires 2 <= base <= 16 && max > 0 && digit < 16 && IsStep(v, base, digit, rest)
    ensures rest == 0 || max == 1 ==> Digits(v, base, upper, max) == [DigitChar(digit, upper)]
    ensures rest > 0 && max > 1 ==> Digits(v, base, upper, max) == [DigitChar(digit, upper)] + Digits(rest, base, upper, max - 1)
  {
    hide DigitChar;
    if max == 1 {
      assert Digits(v / base, base, upper, 0) == "";
    }
  }

  /** The `max` digits of the buffer hold the value modulo base^max. */
  lemma {:induction false} DigitsBack(v: nat, base: nat, upper: bool, max: nat)
    requires 2 <= base <= 16
    ensures Power(base, max) > 0 && Value(Digits(v, base, upper, max), base) == v % Power(base, max)
    decreases max
  {
    hide DigitChar, DigitValue;
    if max > 0 {
      DigitsBack(v / base, base, upper, max - 1);
      DigitBack(v % base, upper);
      var rest := if v / base == 0 then "" else Digits(v / base, base, upper, max - 1);
      ValueCons(DigitChar(v % base, upper), rest, base);
      var p := Power(base, max - 1);
      ModStep(v, base, p);
      if v / base == 0 {
        DivExact(0, 0, p);
      }
    }
  }

  lemma ValueCons(x: char, d: string, base: nat)
    ensures Value([x] + d, base) == DigitValue(x) + base * Value(d, base)
  {
    hide DigitValue;
    assert ([x] + d)[1..] == d;
  }

  lemma ModStep(v: nat, b: nat, p: nat)
    requires b > 0 && p > 0
    ensures b * p > 0 && v % (b * p) == v % b + b * (v / b % p)
  {
    MulMono(1, p, b);
    var w, s := v / b, v % b;
    Split(v, b);
    Split(w, p);
    ModParts(w, s, w / p, w % p, b, p);
  }

  lemma Split(v: nat, b: nat)
    requires b > 0
    ensures v == v / b * b + v % b
  {
  }

  lemma ModParts(w: nat, s: nat, q: nat, r: nat, b: nat, p: nat)
    requires s < b && r < p && w == q * p + r && b * p > 0
    ensures (w * b + s) % (b * p) == s + b * r
  {
    Spread(q, p, r, b);
    MulMono(r + 1, p, b);
    MulSucc(r, b);
    assert b * r + s < b * p;
    DivExact(q, b * r + s, b * p);
  }

  lemma Spread(q: nat, p: nat, r: nat, b: nat)
    ensures (q * p + r) * b == q * (b * p) + b * r
  {
  }

  // ---- _atoi -------------------------------------------------------------------------------

  /** The value of a digit string on 32 bits. */
  function Atoi(s: string, acc: nat): nat {
    if s == "" then acc else Atoi(s[1..], (acc * 10 + DigitValue(s[0])) % U32)
  }

  lemma {:induction false} AtoiSnoc(s: string, c: char, acc: nat)
    ensures Atoi(s + [c], acc) == (Atoi(s, acc) * 10 + DigitValue(c)) % U32
    decreases |s|
  {
    hide DigitValue;
    if s == "" {
      assert s + [c] == [c];
      assert [c][1..] == "";
      AtoiEmpty((acc * 10 + DigitValue(c)) % U32);
    } else {
      assert (s + [c])[1..] == s[1..] + [c];
      AtoiSnoc(s[1..], c, (acc * 10 + DigitValue(s[0])) % U32);
    }
  }

  lemma AtoiEmpty(acc: nat)
    ensures Atoi("", acc) == acc
  {
  }

  /** Reading digits back gives the number they stand for, on 32 bits. */
  lemma {:induction false} AtoiReverse(d: string)
    ensures Atoi(Reverse(d), 0) == Value(d, 10) % U32
    decreases |d|
  {
    hide DigitValue;
    if d != "" {
      AtoiReverse(d[1..]);
      AtoiSnoc(Reverse(d[1..]), d[0], 0);
      ModTimesTen(Value(d[1..], 10), DigitValue(d[0]));
    }
  }

  lemma ModTimesTen(x: nat, c: nat)
    ensures (x % U32 * 10 + c) % U32 == (x * 10 + c) % U32
  {
  }

  lemma {:induction false} PowerAdd(b: nat, m: nat, n: nat)
    ensures Power(b, m + n) == Power(b, m) * Power(b, n)
  {
    if m > 0 {
      PowerAdd(b, m - 1, n);
      assert b * (Power(b, m - 1) * Power(b, n)) == (b * Power(b, m - 1)) * Power(b, n);
    }
  }

  lemma TenTo20()
    ensures Power(10, 20) == 100_000_000_000_000_000_000
  {
    assert Power(10, 3) == 1000 && Power(10, 5) == 100_000;
    PowerAdd(10, 5, 5);
    PowerAdd(10, 10, 10);
  }

  /** A number below base^k has at most `k` digits. */
  lemma {:induction false} DigitsFit(v: nat, base: nat, upper: bool, max: nat, k: nat)
    requires 2 <= base <= 16 && v < Power(base, k) && k > 0
    ensures |Digits(v, base, upper, max)| <= k && (max > 0 ==> Digits(v, base, upper, max) != "")
    decreases k
  {
    hide DigitChar, Power, Digits, IsStep;
    if max > 0 {
      var digit, rest := FewerDigits(v, base, k);
      DigitsUnfold(v, base, upper, max, digit, rest);
      if rest > 0 && max > 1 {
        DigitsFit(rest, base, upper, max - 1, k - 1);
      }
    } else {
      NoDigits(v, base, upper);
    }
  }

  lemma NoDigits(v: nat, base: nat, upper: bool)
    requires 2 <= base <= 16
    ensures Digits(v, base, upper, 0) == ""
  {
  }

  lemma FewerDigits(v: nat, base: nat, k: nat) returns (digit: nat, rest: nat)
    requires 2 <= base <= 16 && v < Power(base, k) && k > 0
    ensures digit < 16 && IsStep(v, base, digit, rest) && (rest > 0 ==> k > 1 && rest < Power(base, k - 1))
  {
    digit, rest := v % base, v / base;
    QuotBound(v, base, Power(base, k - 1));
  }

  lemma QuotBound(v: nat, b: nat, p: nat)
    requires b > 0 && v < b * p
    ensures v / b < p
  {
    DivBound(v, b, p);
  }

  /** %d and its longer forms, bare: the sign, then digits that read back as the magnitude. */
  lemma PlainDecimal(v: nat, neg: bool, f: Flags)
    requires v < 0x1_0000_0000_0000_0000 && f == Flags(false, false, false, false, false, f.upper, false)
    ensures Field(v, neg, 10, 0, 0, f) == (if neg then "-" else "") + Reverse(Digits(v, 10, f.upper, NTOA))
    ensures Value(Digits(v, 10, f.upper, NTOA), 10) == v && Atoi(Reverse(Digits(v, 10, f.upper, NTOA)), 0) == v % U32
  {
    hide DigitValue, DigitChar, Digits;
    var d := Digits(v, 10, f.upper, NTOA);
    TenTo20();
    DigitsFit(v, 10, f.upper, NTOA, 20);
    PowerAdd(10, 20, 12);
    DigitsBack(v, 10, f.upper, NTOA);
    assert Power(10, 12) >= 1 by { DigitsBack(0, 10, f.upper, 12); }
    assert v < Power(10, 32);
    AtoiReverse(d);
    assert PadTo(d, 0) == d;
    if neg {
      ReverseSnoc(d, '-');
    }
  }

  lemma {:induction false} ReverseSnoc(d: string, c: char)
    ensures Reverse(d + [c]) == [c] + Reverse(d)
    decreases |d|
  {
    if d != "" {
      assert (d + [c])[1..] == d[1..] + [c];
      ReverseSnoc(d[1..], c);
    } else {
      assert d + [c] == [c];
    }
  }

  lemma {:induction false} SpacesLength(n: int)
    ensures |Spaces(n)| == if n > 0 then n else 0
    decreases n
  {
    if n > 0 {
      SpacesLength(n - 1);
    }
  }

  lemma LaidWidth(b: string, width: nat, f: Flags)
    ensures f.left || !f.zeroPad ==> |Laid(b, width, f)| >= width
    ensures !f.left && f.zeroPad ==> |Laid(b, width, f)| == |b|
  {
    SpacesLength(width - |b|);
  }

  lemma PrefixedWidth(d: string, base: nat, prec: nat, w: nat, f: Flags)
    requires w <= |d| <= NTOA
    ensures w <= |Prefixed(d, base, prec, w, f)| <= NTOA
  {
  }

  lemma PrefixedFits(d: string, base: nat, prec: nat, w: nat, f: Flags)
    requires |d| <= NTOA
    ensures |Prefixed(d, base, prec, w, f)| <= NTOA
  {
  }

  /** Zero padding fills the width, up to the buffer. */
  lemma ZeroWidth(d: string, neg: bool, base: nat, prec: nat, width: nat, f: Flags)
    requires |d| <= NTOA && f.zeroPad && !f.left
    ensures var b := Signed(Prefixed(Padded(d, neg, prec, width, f), base, prec, Room(neg, width, f), f), neg, f);
      |b| <= NTOA && (width <= NTOA ==> |b| >= width)
  {
    hide Prefixed, PadTo;
    var w, p := Room(neg, width, f), Padded(d, neg, prec, width, f);
    PrefixedFits(p, base, prec, w, f);
    if width <= NTOA {
      PrefixedWidth(p, base, prec, w, f);
    }
  }

  /** A field is at least as wide as asked, except that zeros reach no further than the buffer. */
  lemma FieldWidth(v: nat, neg: bool, base: nat, prec: nat, width: nat, f: Flags)
    requires 2 <= base <= 16
    ensures |Field(v, neg, base, prec, width, f)| < width <==> f.zeroPad && !f.left && width > NTOA
  {
    hide Digits, Prefixed, Padded, Laid, Signed;
    var g := if v == 0 then f.(hash := false) else f;
    var w, d := Room(neg, width, g), Raw(v, base, f);
    LaidWidth(Signed(Prefixed(Padded(d, neg, prec, width, g), base, prec, w, g), neg, g), w, g);
    if f.zeroPad && !f.left {
      ZeroWidth(d, neg, base, prec, width, g);
    }
  }

  /** Hexadecimal with '#', padded with spaces: the text is 0x and the digits unless the digits
      alone fill the width exactly; then the last ones are taken back. */
  lemma HashField(v: nat, width: nat, f: Flags)
    requires 0 < v < 0x1_0000_0000_0000_0000 && f == Flags(false, false, false, false, true, false, false)
    ensures var d := Digits(v, 16, false, NTOA);
      Field(v, false, 16, 0, width, f) == Spaces(width - |d| - 2) + "0x" + Reverse(d) <==> |d| != width
  {
    hide DigitChar, Digits, Power;
    var d := Digits(v, 16, false, NTOA);
    SixteenTo16();
    DigitsFit(v, 16, false, NTOA, 16);
    HashLaid(d, width, f);
  }

  lemma SixteenTo16()
    ensures Power(16, 16) == 0x1_0000_0000_0000_0000
  {
    assert Power(16, 4) == 0x1_0000;
    PowerAdd(16, 4, 4);
    PowerAdd(16, 8, 8);
  }

  lemma HashLaid(d: string, width: nat, f: Flags)
    requires 0 < |d| <= 16 && f == Flags(false, false, false, false, true, false, false)
    ensures Formatted(d, false, 16, 0, width, f) == Spaces(width - |d| - 2) + "0x" + Reverse(d) <==> |d| != width
  {
    assert PadTo(d, 0) == d;
    SpacesLength(width - |d| - 2);
    if |d| == width {
      var t := Prefixed(d, 16, 0, width, f);
      SpacesLength(width - |t|);
      assert |Formatted(d, false, 16, 0, width, f)| < width + 2;
    } else {
      HashKept(d, width, f);
    }
  }

  lemma HashKept(d: string, width: nat, f: Flags)
    requires |d| <= 16 && |d| != width && f == Flags(false, false, false, false, true, false, false)
    ensures Prefixed(d, 16, 0, width, f) == d + "x0" && Reverse(d + "x0") == "0x" + Reverse(d)
    ensures Formatted(d, false, 16, 0, width, f) == Spaces(width - |d| - 2) + "0x" + Reverse(d)
  {
    assert PadTo(d, 0) == d;
    ReverseSnoc(d, 'x');
    ReverseSnoc(d + "x", '0');
    assert d + "x" + "0" == d + "x0";
    var t := if d != "" then d[..|d| - TakenBack(|d|, 16, 0, width, f)] else d;
    assert t == d;
  }
}
