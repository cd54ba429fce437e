/** _vsnprintf without floats: the format language and the bounded output (printf.c:129-301, 590-906). */
module Printf {
  import opened Arithmetic
  import opened Numbers
  import opened Options

  /** A variadic argument: a 64-bit slot, or a string. */
  datatype Arg = Word(w: nat) | Text(t: string)

  datatype Size = Char | Short | Plain | Long

  // ---- The text a format stands for --------------------------------------------------------

  function At(fmt: string, i: nat): char {
    if i < |fmt| then fmt[i] else '\0'
  }

  const NO_FLAGS := Flags(false, false, false, false, false, false, false)

  predicate IsFlag(c: char) {
    c == '0' || c == '-' || c == '+' || c == ' ' || c == '#'
  }

  function AddFlag(c: char, f: Flags): Flags {
    match c
    case '0' => f.(zeroPad := true)
    case '-' => f.(left := true)
    case '+' => f.(plus := true)
    case ' ' => f.(space := true)
    case _ => f.(hash := true)
  }

  /** The flags from `i` on, and where they end. */
  function FlagsAt(fmt: string, i: nat, f: Flags): (r: (Flags, nat))
    ensures i <= r.1 && (i <= |fmt| ==> r.1 <= |fmt|)
    decreases |fmt| - i
  {
    if i < |fmt| && IsFlag(fmt[i]) then FlagsAt(fmt, i + 1, AddFlag(fmt[i], f)) else (f, i)
  }

  /** Where the digits from `i` on end. */
  function DigitsEnd(fmt: string, i: nat): (j: nat)
    ensures i <= j && (i <= |fmt| ==> j <= |fmt|)
    decreases |fmt| - i
  {
    if i < |fmt| && IsDigit(fmt[i]) then DigitsEnd(fmt, i + 1) else i
  }

  function AsInt(w: nat): int {
    if w % U32 < 0x8000_0000 then w % U32 else w % U32 - U32
  }

  function AsLong(w: nat): int {
    var x := w % (U32 * U32);
    if x < U32 * U32 / 2 then x else x - U32 * U32
  }

  function Abs(x: int): nat {
    if x < 0 then -x else x
  }

  /** What a directive has said so far. */
  datatype Spec = Spec(f: Flags, width: nat, prec: nat, size: Size, next: nat, args: seq<Arg>)

  function WidthAt(fmt: string, i: nat, f: Flags, args: seq<Arg>): (r: Option<Spec>)
    requires i <= |fmt|
    ensures r.Some? ==> i <= r.value.next <= |fmt|
  {
    if IsDigit(At(fmt, i)) then
      var j := DigitsEnd(fmt, i);
      Some(Spec(f, Atoi(fmt[i..j], 0), 0, Plain, j, args))
    else if At(fmt, i) == '*' then
      if args != [] && args[0].Word? then
        var w := AsInt(args[0].w);
        Some(Spec(if w < 0 then f.(left := true) else f, Abs(w), 0, Plain, i + 1, args[1..]))
      else None
    else Some(Spec(f, 0, 0, Plain, i, args))
  }

  function PrecisionAt(fmt: string, s: Spec): (r: Option<Spec>)
    requires s.next <= |fmt|
    ensures r.Some? ==> s.next <= r.value.next <= |fmt|
  {
    if At(fmt, s.next) != '.' then Some(s)
    else
      var i, t := s.next + 1, s.(f := s.f.(precision := true), next := s.next + 1);
      if IsDigit(At(fmt, i)) then
        var j := DigitsEnd(fmt, i);
        Some(t.(prec := Atoi(fmt[i..j], 0), next := j))
      else if At(fmt, i) == '*' then
        if s.args != [] && s.args[0].Word? then
          var p := AsInt(s.args[0].w);
          Some(t.(prec := if p > 0 then p else 0, next := i + 1, args := s.args[1..]))
        else None
      else Some(t)
  }

  function LengthAt(fmt: string, s: Spec): (r: Spec)
    requires s.next <= |fmt|
    ensures s.next <= r.next <= |fmt| && r.(size := s.size, next := s.next) == s
  {
    var c, d := At(fmt, s.next), At(fmt, s.next + 1);
    if c == 'l' then s.(size := Long, next := s.next + if d == 'l' then 2 else 1)
    else if c == 'h' then s.(size := if d == 'h' then Char else Short, next := s.next + if d == 'h' then 2 else 1)
    else if c == 't' || c == 'j' || c == 'z' then s.(size := Long, next := s.next + 1)
    else s
  }

  predicate IsInteger(c: char) {
    c == 'd' || c == 'i' || c == 'u' || c == 'x' || c == 'X' || c == 'o' || c == 'b'
  }

  function BaseOf(c: char): (b: nat)
    ensures 2 <= b <= 16
  {
    if c == 'x' || c == 'X' then 16 else if c == 'o' then 8 else if c == 'b' then 2 else 10
  }

  predicate IsSigned(c: char) {
    c == 'd' || c == 'i'
  }

  function IntegerFlags(c: char, f: Flags): Flags {
    var g := if BaseOf(c) == 10 then f.(hash := false) else f;
    var h := if c == 'X' then g.(upper := true) else g;
    var k := if IsSigned(c) then h else h.(plus := false, space := false);
    if k.precision then k.(zeroPad := false) else k
  }

  /** The argument as the directive's type; char is unsigned on RISC-V. */
  function Narrow(c: char, size: Size, w: nat): int {
    match size
    case Long => if IsSigned(c) then AsLong(w) else w % (U32 * U32)
    case Plain => if IsSigned(c) then AsInt(w) else w % U32
    case Short => if !IsSigned(c) || w % 0x1_0000 < 0x8000 then w % 0x1_0000 else w % 0x1_0000 - 0x1_0000
    case Char => w % 0x100
  }

  function Least(a: nat, b: nat): nat {
    if a < b then a else b
  }

  function Shown(s: Spec, t: string): string {
    if s.f.precision then t[..Least(s.prec, |t|)] else t
  }

  function Boxed(s: Spec, t: string): string {
    (if s.f.left then "" else Spaces(s.width - |t|)) + t + if s.f.left then Spaces(s.width - |t|) else ""
  }

  /** Text, position after the directive, arguments left. */
  datatype Piece = Piece(text: string, next: nat, args: seq<Arg>)

  // The floating conversions, a missing or ill-typed argument and a format that ends inside a
  // directive have no piece.
  function Convert(fmt: string, s: Spec): (r: Option<Piece>)
    requires s.next <= |fmt|
    ensures r.Some? ==> s.next < r.value.next <= |fmt|
  {
    var c, n := At(fmt, s.next), s.next + 1;
    if s.next == |fmt| || c == 'f' || c == 'F' || c == 'e' || c == 'E' || c == 'g' || c == 'G' then None
    else if IsInteger(c) then
      if s.args != [] && s.args[0].Word? then
        var v := Narrow(c, s.size, s.args[0].w);
        Some(Piece(Field(Abs(v), v < 0, BaseOf(c), s.prec, s.width, IntegerFlags(c, s.f)), n, s.args[1..]))
      else None
    else if c == 'c' then
      if s.args != [] && s.args[0].Word? then Some(Piece(Boxed(s, [(s.args[0].w % 0x100) as char]), n, s.args[1..])) else None
    else if c == 's' then
      if s.args != [] && s.args[0].Text? then Some(Piece(Boxed(s, Shown(s, s.args[0].t)), n, s.args[1..])) else None
    else if c == 'p' then
      if s.args != [] && s.args[0].Word? then
        Some(Piece(Field(s.args[0].w % (U32 * U32), false, 16, s.prec, 16, s.f.(zeroPad := true, upper := true)), n, s.args[1..]))
      else None
    else Some(Piece([c], n, s.args))
  }

  /** The directive whose first character after '%' is at `i`. */
  function Directive(fmt: string, i: nat, args: seq<Arg>): (r: Option<Piece>)
    requires i <= |fmt|
    ensures r.Some? ==> i < r.value.next <= |fmt|
  {
    var (f, j) := FlagsAt(fmt, i, NO_FLAGS);
    match WidthAt(fmt, j, f, args)
    case None => None
    case Some(s) =>
      match PrecisionAt(fmt, s)
      case None => None
      case Some(t) => Convert(fmt, LengthAt(fmt, t))
  }

  /** The whole output, without a bound. */
  function Render(fmt: string, i: nat, args: seq<Arg>): Option<string>
    requires i <= |fmt|
    decreases |fmt| - i
  {
    if i == |fmt| then Some("")
    else if fmt[i] != '%' then
      match Render(fmt, i + 1, args)
      case None => None
      case Some(rest) => Some([fmt[i]] + rest)
    else
      match Directive(fmt, i + 1, args)
      case None => None
      case Some(p) =>
        match Render(fmt, p.next, p.args)
        case None => None
        case Some(rest) => Some(p.text + rest)
  }

  // ---- Truncation --------------------------------------------------------------------------

  /** `b` after printing `text` into the first `n` places of `b0`. */
  ghost predicate Printed(b0: seq<char>, b: seq<char>, n: nat, text: string) {
    && |b| == |b0| && n <= |b|
    && (forall i :: 0 <= i < |text| && i + 1 < n ==> b[i] == text[i])
    && (n > 0 ==> b[Least(|text|, n - 1)] == '\0')
    && (forall i :: Least(|text| + 1, n) <= i < |b| ==> b[i] == b0[i])
  }

  /** Of two runs of one format the shorter bound gives a prefix of what the longer one gives. */
  lemma TruncationIsPrefix(a0: seq<char>, a: seq<char>, m: nat, b0: seq<char>, b: seq<char>, n: nat, text: string)
    requires Printed(a0, a, m, text) && Printed(b0, b, n, text) && 0 < m <= n
    ensures var k, l := Least(|text|, m - 1), Least(|text|, n - 1);
      k <= l && a[..k] == b[..l][..k] && a[k] == '\0' && b[l] == '\0' && (|text| < n ==> b[..l] == text)
  {
    var k, l := Least(|text|, m - 1), Least(|text|, n - 1);
    assert forall i :: 0 <= i < k ==> a[i] == text[i] && b[i] == text[i];
  }

  // ---- The code ----------------------------------------------------------------------------

  /** The output function _out_buffer with its buffer, index and bound. */
  class Sink {
    const buffer: array<char>
    const maxlen: nat
    var idx: nat
    ghost var text: string
    ghost const was: seq<char>

    ghost predicate Valid()
      reads this, buffer
    {
      && maxlen <= buffer.Length == |was| && idx == |text|
      && (forall i :: 0 <= i < idx && i < maxlen ==> buffer[i] == text[i])
      && (forall i :: 0 <= i < buffer.Length && (idx <= i || maxlen <= i) ==> buffer[i] == was[i])
    }

    constructor (b: array<char>, n: nat)
      requires n <= b.Length
      ensures Valid() && text == "" && buffer == b && maxlen == n && was == b[..]
    {
      buffer, maxlen, idx, text, was := b, n, 0, "", b[..];
    }

    // _out_buffer, with the index stepped as every caller does
    method Out(c: char)
      requires Valid()
      modifies this, buffer
      ensures Valid() && text == old(text) + [c]
    {
      if idx < maxlen {
        buffer[idx] := c;
      }
      idx := idx + 1;
      text := text + [c];
    }

    method Pad(n: int)
      requires Valid()
      modifies this, buffer
      ensures Valid() && text == old(text) + Spaces(n)
    {
      var i := 0;
      while i < n
        invariant 0 <= i && (n >= 0 ==> i <= n) && (n < 0 ==> i == 0) && Valid() && text == old(text) + Spaces(i)
      {
        Out(' ');
        i := i + 1;
      }
      assert n < 0 ==> Spaces(n) == Spaces(0);
    }

    method Text(t: string)
      requires Valid()
      modifies this, buffer
      ensures Valid() && text == old(text) + t
    {
      var i := 0;
      while i < |t|
        invariant 0 <= i <= |t| && Valid() && text == old(text) + t[..i]
      {
        Out(t[i]);
        i := i + 1;
        assert t[..i] == t[..i - 1] + [t[i - 1]];
      }
      assert t[..i] == t;
    }

    // _out_rev
    method Rev(buf: array<char>, n: nat, width: nat, f: Flags)
      requires Valid() && n <= buf.Length && buf != buffer
      modifies this, buffer
      ensures Valid() && text == old(text) + Laid(buf[..n], width, f)
    {
      hide Laid, Spaces;
      if !f.left && !f.zeroPad {
        Pad(width - n);
      }
      ghost var start := text;
      var i := n;
      while i > 0
        invariant 0 <= i <= n && Valid() && text + Reverse(buf[..i]) == start + Reverse(buf[..n])
      {
        i := i - 1;
        assert buf[..i + 1] == buf[..i] + [buf[i]];
        ReverseSnoc(buf[..i], buf[i]);
        Out(buf[i]);
      }
      assert buf[..0] == "" && text + Reverse("") == text;
      assert text == start + Reverse(buf[..n]);
      if f.left {
        Pad(width - n);
      }
      assert |buf[..n]| == n;
      LaidParts(buf[..n], width, f);
    }

    // The termination of _vsnprintf; its result is the index.
    method Terminate()
      requires Valid()
      modifies buffer
      ensures Printed(was, buffer[..], maxlen, text)
    {
      if maxlen > 0 {
        buffer[if idx < maxlen then idx else maxlen - 1] := '\0';
      }
    }
  }

  lemma LaidParts(b: string, width: nat, f: Flags)
    ensures f.left ==> Laid(b, width, f) == Reverse(b) + Spaces(width - |b|)
    ensures !f.left && !f.zeroPad ==> Laid(b, width, f) == Spaces(width - |b|) + Reverse(b)
    ensures !f.left && f.zeroPad ==> Laid(b, width, f) == Reverse(b)
  {
  }

  // buf[len++] = c where there is room
  method Append(buf: array<char>, n: nat, c: char) returns (m: nat)
    requires n <= buf.Length == NTOA
    modifies buf
    ensures m <= NTOA && buf[..m] == Put(old(buf[..n]), c)
  {
    m := n;
    if n < NTOA {
      buf[n] := c;
      m := n + 1;
    }
  }

  // The two zero-padding loops of _ntoa_format
  method Zeros(buf: array<char>, n: nat, upTo: nat) returns (m: nat)
    requires n <= buf.Length == NTOA
    modifies buf
    ensures m <= NTOA && buf[..m] == PadTo(old(buf[..n]), upTo)
  {
    m := n;
    while m < upTo && m < NTOA
      invariant n <= m <= NTOA && PadTo(buf[..m], upTo) == PadTo(old(buf[..n]), upTo)
    {
      buf[m] := '0';
      assert buf[..m + 1] == buf[..m] + "0";
      m := m + 1;
    }
  }

  // The leading zeros of _ntoa_format
  method PadDigits(buf: array<char>, n: nat, neg: bool, prec: nat, width: nat, f: Flags) returns (m: nat, w: nat)
    requires n <= buf.Length == NTOA
    modifies buf
    ensures m <= NTOA && buf[..m] == Padded(old(buf[..n]), neg, prec, width, f) && w == Room(neg, width, f)
  {
    m, w := n, width;
    if !f.left {
      if width > 0 && f.zeroPad && (neg || f.plus || f.space) {
        w := width - 1;
      }
      m := Zeros(buf, m, prec);
      if f.zeroPad {
        m := Zeros(buf, m, w);
      }
    }
  }

  // The '#' part of _ntoa_format
  method Hash(buf: array<char>, n: nat, base: nat, prec: nat, w: nat, f: Flags) returns (m: nat)
    requires n <= buf.Length == NTOA
    modifies buf
    ensures m <= NTOA && buf[..m] == Prefixed(old(buf[..n]), base, prec, w, f)
  {
    m := n;
    if f.hash {
      if !f.precision && m > 0 && (m == prec || m == w) {
        m := m - 1;
        if m > 0 && base == 16 {
          m := m - 1;
        }
      }
      assert buf[..m] == old(buf[..n])[..n - TakenBack(n, base, prec, w, f)];
      if base == 16 && !f.upper {
        m := Append(buf, m, 'x');
      } else if base == 16 && f.upper {
        m := Append(buf, m, 'X');
      } else if base == 2 {
        m := Append(buf, m, 'b');
      }
      m := Append(buf, m, '0');
    }
  }

  // _ntoa_format
  method Format(s: Sink, buf: array<char>, n: nat, neg: bool, base: nat, prec: nat, width: nat, f: Flags)
    requires s.Valid() && n <= buf.Length == NTOA && buf != s.buffer
    modifies s, s.buffer, buf
    ensures s.Valid() && s.text == old(s.text) + Formatted(old(buf[..n]), neg, base, prec, width, f)
  {
    hide Padded, Prefixed, Room, Laid;
    var m, w := PadDigits(buf, n, neg, prec, width, f);
    m := Hash(buf, m, base, prec, w, f);
    if neg {
      m := Append(buf, m, '-');
    } else if f.plus {
      m := Append(buf, m, '+');
    } else if f.space {
      m := Append(buf, m, ' ');
    }
    s.Rev(buf, m, w, f);
  }

  // The digit loop of _ntoa_long
  method MakeDigits(buf: array<char>, value: nat, base: nat, upper: bool) returns (n: nat)
    requires 2 <= base <= 16 && buf.Length == NTOA
    modifies buf
    ensures n <= NTOA && buf[..n] == Digits(value, base, upper, NTOA)
  {
    hide DigitChar, Digits, IsStep;
    var v: nat := value;
    n := 0;
    assert buf[..0] + Digits(value, base, upper, NTOA) == Digits(value, base, upper, NTOA);
    while true
      invariant n < NTOA && Digits(value, base, upper, NTOA) == buf[..n] + Digits(v, base, upper, NTOA - n)
      decreases NTOA - n
    {
      var digit, rest := DivMod(v, base);
      ghost var before := buf[..n];
      buf[n] := DigitChar(digit, upper);
      assert buf[..n + 1] == before + [DigitChar(digit, upper)];
      DigitsUnfold(v, base, upper, NTOA - n, digit, rest);
      v := rest;
      n := n + 1;
      if v == 0 || n >= NTOA {
        break;
      }
    }
  }

  method DivMod(v: nat, base: nat) returns (digit: nat, rest: nat)
    requires 2 <= base <= 16
    ensures digit < 16 && IsStep(v, base, digit, rest)
  {
    digit, rest := v % base, v / base;
  }

  // _ntoa_long and _ntoa_long_long
  method Ntoa(s: Sink, value: nat, neg: bool, base: nat, prec: nat, width: nat, f: Flags)
    requires s.Valid() && 2 <= base <= 16
    modifies s, s.buffer
    ensures s.Valid() && s.text == old(s.text) + Field(value, neg, base, prec, width, f)
  {
    hide Formatted, Digits;
    var buf := new char[NTOA];
    var n := 0;
    if !f.precision || value > 0 {
      n := MakeDigits(buf, value, base, f.upper);
    }
    assert buf[..n] == Raw(value, base, f);
    Format(s, buf, n, neg, base, prec, width, if value == 0 then f.(hash := false) else f);
  }

  // The flag loop of _vsnprintf
  method EvalFlags(fmt: string, i: nat) returns (f: Flags, j: nat)
    requires i <= |fmt|
    ensures (f, j) == FlagsAt(fmt, i, NO_FLAGS)
  {
    f, j := NO_FLAGS, i;
    while IsFlag(At(fmt, j))
      invariant i <= j <= |fmt| && FlagsAt(fmt, j, f) == FlagsAt(fmt, i, NO_FLAGS)
      decreases |fmt| - j
    {
      f := AddFlag(fmt[j], f);
      j := j + 1;
    }
  }

  // _atoi, with the format position it moves
  method ReadNumber(fmt: string, i: nat) returns (n: nat, j: nat)
    requires i <= |fmt|
    ensures j == DigitsEnd(fmt, i) && n == Atoi(fmt[i..j], 0)
  {
    hide DigitValue, Atoi;
    n, j := 0, i;
    AtoiEmpty(0);
    assert fmt[i..i] == "";
    while IsDigit(At(fmt, j))
      invariant i <= j <= |fmt| && DigitsEnd(fmt, j) == DigitsEnd(fmt, i) && n == Atoi(fmt[i..j], 0)
      decreases |fmt| - j
    {
      AtoiSnoc(fmt[i..j], fmt[j], 0);
      assert fmt[i..j + 1] == fmt[i..j] + [fmt[j]];
      n := (n * 10 + DigitValue(fmt[j])) % U32;
      j := j + 1;
    }
  }

  method EvalWidth(fmt: string, i: nat, f: Flags, args: seq<Arg>) returns (r: Option<Spec>)
    requires i <= |fmt|
    ensures r == WidthAt(fmt, i, f, args)
  {
    if IsDigit(At(fmt, i)) {
      var n, j := ReadNumber(fmt, i);
      return Some(Spec(f, n, 0, Plain, j, args));
    } else if At(fmt, i) == '*' {
      if args == [] || args[0].Text? {
        return None;
      }
      var w := AsInt(args[0].w);
      if w < 0 {
        return Some(Spec(f.(left := true), -w, 0, Plain, i + 1, args[1..]));
      }
      return Some(Spec(f, w, 0, Plain, i + 1, args[1..]));
    }
    r := Some(Spec(f, 0, 0, Plain, i, args));
  }

  method EvalPrecision(fmt: string, s: Spec) returns (r: Option<Spec>)
    requires s.next <= |fmt|
    ensures r == PrecisionAt(fmt, s)
  {
    if At(fmt, s.next) != '.' {
      return Some(s);
    }
    var t := s.(f := s.f.(precision := true), next := s.next + 1);
    if IsDigit(At(fmt, t.next)) {
      var n, j := ReadNumber(fmt, t.next);
      return Some(t.(prec := n, next := j));
    } else if At(fmt, t.next) == '*' {
      if s.args == [] || s.args[0].Text? {
        return None;
      }
      var p := AsInt(s.args[0].w);
      return Some(t.(prec := if p > 0 then p else 0, next := t.next + 1, args := s.args[1..]));
    }
    r := Some(t);
  }

  // The padding loops around %c and %s
  method Box(s: Sink, sp: Spec, t: string)
    requires s.Valid()
    modifies s, s.buffer
    ensures s.Valid() && s.text == old(s.text) + Boxed(sp, t)
  {
    ghost var start := s.text;
    if !sp.f.left {
      s.Pad(sp.width - |t|);
    }
    s.Text(t);
    if sp.f.left {
      s.Pad(sp.width - |t|);
    }
    assert s.text == start + Boxed(sp, t);
  }

  // The specifier switch of _vsnprintf
  method EvalConversion(s: Sink, fmt: string, sp: Spec) returns (ok: bool, next: nat, rest: seq<Arg>)
    requires s.Valid() && sp.next <= |fmt|
    modifies s, s.buffer
    ensures s.Valid()
    ensures match Convert(fmt, sp)
      case None => !ok
      case Some(p) => ok && s.text == old(s.text) + p.text && next == p.next && rest == p.args
  {
    hide Field, Boxed, Shown;
    var c := At(fmt, sp.next);
    ok, next, rest := false, sp.next + 1, sp.args;
    if sp.next == |fmt| || c == 'f' || c == 'F' || c == 'e' || c == 'E' || c == 'g' || c == 'G' {
      return;
    }
    if IsInteger(c) || c == 'c' || c == 'p' {
      if rest == [] || rest[0].Text? {
        return;
      }
      var w := rest[0].w;
      rest := rest[1..];
      if c == 'c' {
        Box(s, sp, [(w % 0x100) as char]);
      } else if c == 'p' {
        Ntoa(s, w % (U32 * U32), false, 16, sp.prec, 16, sp.f.(zeroPad := true, upper := true));
      } else {
        var v := Narrow(c, sp.size, w);
        Ntoa(s, Abs(v), v < 0, BaseOf(c), sp.prec, sp.width, IntegerFlags(c, sp.f));
      }
    } else if c == 's' {
      if rest == [] || rest[0].Word? {
        return;
      }
      var t := rest[0].t;
      rest := rest[1..];
      Box(s, sp, Shown(sp, t));
    } else {
      s.Out(c);
    }
    ok := true;
  }

  method EvalDirective(s: Sink, fmt: string, i: nat, args: seq<Arg>) returns (ok: bool, next: nat, rest: seq<Arg>)
    requires s.Valid() && i <= |fmt|
    modifies s, s.buffer
    ensures s.Valid()
    ensures match Directive(fmt, i, args)
      case None => !ok
      case Some(p) => ok && s.text == old(s.text) + p.text && next == p.next && rest == p.args
  {
    hide Convert, WidthAt, PrecisionAt, LengthAt;
    ok, next, rest := false, i, args;
    var f, j := EvalFlags(fmt, i);
    var sp := EvalWidth(fmt, j, f, args);
    if sp.None? {
      return;
    }
    sp := EvalPrecision(fmt, sp.value);
    if sp.None? {
      return;
    }
    ok, next, rest := EvalConversion(s, fmt, LengthAt(fmt, sp.value));
  }

  // _vsnprintf into a buffer: the text of the format, cut to the bound and terminated, and the
  // length of the whole text whatever the bound
  method Vsnprintf(buffer: array<char>, maxlen: nat, fmt: string, args: seq<Arg>) returns (ok: bool, len: nat)
    requires maxlen <= buffer.Length
    modifies buffer
    ensures ok <==> Render(fmt, 0, args).Some?
    ensures ok ==> len == |Render(fmt, 0, args).value| && Printed(old(buffer[..]), buffer[..], maxlen, Render(fmt, 0, args).value)
  {
    hide Directive, Printed;
    var s := new Sink(buffer, maxlen);
    var i: nat, rest := 0, args;
    ok := true;
    JoinText("", "", Render(fmt, 0, args));
    while i < |fmt|
      invariant i <= |fmt| && s.Valid() && ok && fresh(s)
      invariant Render(fmt, 0, args) == match Render(fmt, i, rest) case None => None case Some(t) => Some(s.text + t)
    {
      ghost var before := s.text;
      if fmt[i] != '%' {
        s.Out(fmt[i]);
        JoinText(before, [fmt[i]], Render(fmt, i + 1, rest));
        i := i + 1;
      } else {
        var next, more;
        ok, next, more := EvalDirective(s, fmt, i + 1, rest);
        if !ok {
          return false, 0;
        }
        JoinText(before, Directive(fmt, i + 1, rest).value.text, Render(fmt, next, more));
        i, rest := next, more;
      }
    }
    s.Terminate();
    assert s.text + "" == s.text;
    len := s.idx;
  }

  lemma JoinText(a: string, b: string, r: Option<string>)
    ensures r.Some? ==> (a + b) + r.value == a + (b + r.value) && "" + r.value == r.value
  {
  }
}
