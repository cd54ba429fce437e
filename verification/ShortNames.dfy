/** The name fat_readdir shows when there is no usable long one (direntry.c:117-128). */
module ShortNames {
  import opened Bytes
  import opened LongNames

  const SPACE: byte := 0x20
  const DOT: byte := 0x2E

  // tolower
  function Lower(c: byte): byte {
    if 0x41 <= c <= 0x5A then c + 0x20 else c
  }

  function Lowered(s: seq<byte>): (r: seq<byte>)
    ensures |r| == |s|
  {
    seq(|s|, i requires 0 <= i < |s| => Lower(s[i]))
  }

  /** The first place from `i` on without a space, or the end of the eleven characters. */
  function Skip(n: seq<byte>, i: nat): (r: nat)
    requires |n| == 11 && i <= 11
    ensures i <= r <= 11 && (r < 11 ==> n[r] != SPACE) && forall k :: i <= k < r ==> n[k] == SPACE
    decreases 11 - i
  {
    if i < 11 && n[i] == SPACE then Skip(n, i + 1) else i
  }

  /** The characters the loop stores from place `i` on: a run of spaces becomes a dot and takes the
      character behind it along. */
  function Folded(n: seq<byte>, i: nat): (r: seq<byte>)
    requires |n| == 11
    ensures |r| <= if i <= 11 then 11 - i else 0
    ensures i < 11 ==> r != []
    decreases 11 - i
  {
    if i >= 11 then []
    else if n[i] == SPACE then [DOT] + Folded(n, Skip(n, i + 1) + 1)
    else [Lower(n[i])] + Folded(n, i + 1)
  }

  /** The name shown: a dot at the end is dropped. */
  function DotName(sname: seq<byte>): (r: seq<byte>)
    requires |sname| == 11
    ensures |r| <= 11
  {
    var r := Folded(sname, 0);
    if r[|r| - 1] == DOT then r[..|r| - 1] else r
  }

  /** d_name holds `s` and its terminator. */
  predicate Holds(name: seq<byte>, s: seq<byte>) {
    |s| < |name| && name[..|s|] == s && name[|s|] == 0
  }

  /** One turn of the loop. */
  lemma OneStored(n: seq<byte>, done: seq<byte>, i: nat)
    requires |n| == 11 && i < 11 && Folded(n, 0) == done + Folded(n, i)
    ensures var c, next := if n[i] == SPACE then DOT else Lower(n[i]), (if n[i] == SPACE then Skip(n, i + 1) else i) + 1;
      Folded(n, 0) == done + [c] + Folded(n, next)
  {
    var c, next := if n[i] == SPACE then DOT else Lower(n[i]), (if n[i] == SPACE then Skip(n, i + 1) else i) + 1;
    assert Folded(n, i) == [c] + Folded(n, next);
    Regroup(done, [c], Folded(n, next));
  }

  lemma Regroup(a: seq<byte>, b: seq<byte>, c: seq<byte>)
    ensures a + (b + c) == a + b + c
  {
  }

  // The inner loop
  method SkipSpaces(sname: seq<byte>, from: nat) returns (i: nat)
    requires |sname| == 11 && from <= 11
    ensures i == Skip(sname, from)
  {
    i := from;
    while i < 11 && sname[i] == SPACE
      invariant from <= i <= 11 && Skip(sname, from) == Skip(sname, i)
    {
      i := i + 1;
    }
  }

  // The loop that fills d_name
  method StoreFolded(name: array<byte>, sname: seq<byte>) returns (j: nat)
    requires name.Length == NAME_SIZE && |sname| == 11
    modifies name
    ensures j == |Folded(sname, 0)| && name[..j] == Folded(sname, 0)
  {
    hide Folded, Skip;
    var i: nat := 0;
    j := 0;
    assert Folded(sname, 0) == [] + Folded(sname, 0);
    while i < 11
      invariant j <= i <= 12 && j <= 11
      invariant Folded(sname, 0) == name[..j] + Folded(sname, i)
    {
      ghost var before := name[..j];
      OneStored(sname, before, i);
      name[j] := Lower(sname[i]);
      if sname[i] == SPACE {
        name[j] := DOT;
        i := SkipSpaces(sname, i + 1);
      }
      assert name[..j + 1] == before + [name[j]];
      i := i + 1;
      j := j + 1;
    }
    assert Folded(sname, i) == [];
  }

  // The fallback of fat_readdir
  method FillDotName(name: array<byte>, sname: seq<byte>)
    requires name.Length == NAME_SIZE && |sname| == 11
    modifies name
    ensures Holds(name[..], DotName(sname))
  {
    hide Folded;
    var j := StoreFolded(name, sname);
    assert name[j - 1] == Folded(sname, 0)[j - 1];
    if name[j - 1] == DOT {
      name[j - 1] := 0;
    }
    name[j] := 0;
  }

  // ---- What is shown ----------------------------------------------------------------------

  /** A base of up to eight characters and an extension of up to three, without spaces. */
  predicate Parts(base: seq<byte>, ext: seq<byte>) {
    1 <= |base| <= 8 && |ext| <= 3 && (forall k :: 0 <= k < |base| ==> base[k] != SPACE) && forall k :: 0 <= k < |ext| ==> ext[k] != SPACE
  }

  function Spaces(n: nat): (s: seq<byte>)
    ensures |s| == n
  {
    seq(n, _ => SPACE)
  }

  /** Their eleven characters in the entry. */
  function Padded(base: seq<byte>, ext: seq<byte>): (n: seq<byte>)
    requires |base| <= 8 && |ext| <= 3
    ensures |n| == 11
  {
    base + Spaces(8 - |base|) + ext + Spaces(3 - |ext|)
  }

  /** The name as it is written. */
  function Written(base: seq<byte>, ext: seq<byte>): seq<byte> {
    Lowered(base) + if ext == [] then [] else [DOT] + Lowered(ext)
  }

  lemma {:induction false} FoldedText(n: seq<byte>, i: nat, k: nat)
    requires |n| == 11 && i <= k <= 11 && forall x :: i <= x < k ==> n[x] != SPACE
    ensures Folded(n, i) == Lowered(n[i..k]) + Folded(n, k)
    decreases k - i
  {
    hide Lowered, Skip;
    if i < k {
      FoldedText(n, i + 1, k);
      LoweredFirst(n[i..k]);
      assert n[i..k][1..] == n[i + 1..k];
      assert Folded(n, i) == [Lower(n[i])] + Folded(n, i + 1);
      Regroup([Lower(n[i])], Lowered(n[i + 1..k]), Folded(n, k));
    } else {
      assert n[i..k] == [] && Lowered([]) == [];
    }
  }

  lemma LoweredFirst(s: seq<byte>)
    requires s != []
    ensures Lowered(s) == [Lower(s[0])] + Lowered(s[1..])
  {
  }

  /** What the loop makes of a base and an extension. */
  function Loop(base: seq<byte>, ext: seq<byte>): seq<byte> {
    var dot := if |ext| < 3 then [DOT] else [];
    if |base| == 8 then Lowered(base) + Lowered(ext) + dot
    else if ext == [] then Lowered(base) + [DOT]
    else Lowered(base) + [DOT] + Lowered(ext[1..]) + dot
  }

  lemma PaddedAt(base: seq<byte>, ext: seq<byte>)
    requires Parts(base, ext)
    ensures var n := Padded(base, ext);
      && n[0..|base|] == base && n[8..8 + |ext|] == ext && (forall k :: |base| <= k < 8 ==> n[k] == SPACE)
      && (forall k :: 8 + |ext| <= k < 11 ==> n[k] == SPACE) && (ext != [] ==> n[9..8 + |ext|] == ext[1..])
    ensures var n := Padded(base, ext);
      (forall k :: 0 <= k < |base| ==> n[k] != SPACE) && forall k :: 8 <= k < 8 + |ext| ==> n[k] != SPACE
  {
    var n := Padded(base, ext);
    assert forall k :: 0 <= k < |base| ==> n[k] == base[k];
    assert forall k :: 8 <= k < 8 + |ext| ==> n[k] == ext[k - 8];
  }

  lemma FoldedParts(base: seq<byte>, ext: seq<byte>)
    requires Parts(base, ext)
    ensures Folded(Padded(base, ext), 0) == Loop(base, ext)
  {
    hide Folded, Padded, Lowered, Skip;
    var n := Padded(base, ext);
    PaddedAt(base, ext);
    FoldedText(n, 0, |base|);
    FoldedEnd(n, 8 + |ext|);
    if |base| == 8 {
      FoldedText(n, 8, 8 + |ext|);
    } else if ext == [] {
      FoldedEnd(n, |base|);
    } else {
      FoldedGap(n, |base|);
      FoldedText(n, 9, 8 + |ext|);
    }
  }

  /** The run of spaces up to the extension. */
  lemma FoldedGap(n: seq<byte>, i: nat)
    requires |n| == 11 && i < 8 && (forall k :: i <= k < 8 ==> n[k] == SPACE) && n[8] != SPACE
    ensures Folded(n, i) == [DOT] + Folded(n, 9)
  {
    SkipTo(n, i + 1, 8);
  }

  lemma {:induction false} SkipTo(n: seq<byte>, i: nat, k: nat)
    requires |n| == 11 && i <= k <= 11 && (forall x :: i <= x < k ==> n[x] == SPACE) && (k < 11 ==> n[k] != SPACE)
    ensures Skip(n, i) == k
    decreases k - i
  {
    if i < k { SkipTo(n, i + 1, k); }
  }

  /** Spaces to the end fold to one dot. */
  lemma FoldedEnd(n: seq<byte>, i: nat)
    requires |n| == 11 && i <= 11 && forall k :: i <= k < 11 ==> n[k] == SPACE
    ensures Folded(n, i) == if i < 11 then [DOT] else []
  {
    if i < 11 {
      SkipTo(n, i + 1, 11);
    }
  }

  /** The name shown is the one written if and only if there is no extension: behind a short base the
      extension loses its first character, and behind a full one there is no dot. */
  lemma DotNameRight(base: seq<byte>, ext: seq<byte>)
    requires Parts(base, ext) && (forall k :: 0 <= k < |base| ==> base[k] != DOT) && forall k :: 0 <= k < |ext| ==> ext[k] != DOT
    ensures DotName(Padded(base, ext)) == Written(base, ext) <==> ext == []
    ensures ext == [] ==> DotName(Padded(base, ext)) == Lowered(base)
    ensures |base| == 8 ==> DotName(Padded(base, ext)) == Lowered(base) + Lowered(ext)
    ensures |base| < 8 && ext != [] ==> DotName(Padded(base, ext)) == Lowered(base) + [DOT] + Lowered(ext[1..])
  {
    hide Folded, Padded;
    FoldedParts(base, ext);
    var r, b, e, e1 := Loop(base, ext), Lowered(base), Lowered(ext), Lowered(ext[if ext == [] then 0 else 1..]);
    assert |base| == 8 || ext != [] || r == b + [DOT];
    if |ext| == 3 {
      assert r[|r| - 1] == Lower(ext[2]) != DOT;
    } else {
      assert r[|r| - 1] == DOT;
      assert r[..|r| - 1] == if |base| == 8 then b + e else if ext == [] then b else b + [DOT] + e1;
    }
    if ext != [] { assert Written(base, ext) != (if |base| == 8 then b + e else b + [DOT] + e1); }
  }

  const README: seq<byte> := [0x52, 0x45, 0x41, 0x44, 0x4D, 0x45, 0x20, 0x20, 0x54, 0x58, 0x54]

  /** README.TXT is shown as readme.xt. */
  lemma ReadmeShown()
    ensures DotName(README) == [0x72, 0x65, 0x61, 0x64, 0x6D, 0x65, 0x2E, 0x78, 0x74]
  {
    hide Folded, Padded, Lowered;
    var base, ext := README[..6], README[8..];
    assert README == Padded(base, ext) by { ReadmePadded(base, ext); }
    DotNameRight(base, ext);
    ReadmeLowered(base, ext);
  }

  lemma ReadmePadded(base: seq<byte>, ext: seq<byte>)
    requires base == README[..6] && ext == README[8..]
    ensures Padded(base, ext) == README
  {
    assert Spaces(2) == [0x20, 0x20] && Spaces(0) == [];
  }

  lemma ReadmeLowered(base: seq<byte>, ext: seq<byte>)
    requires base == README[..6] && ext == README[8..]
    ensures Lowered(base) + [DOT] + Lowered(ext[1..]) == [0x72, 0x65, 0x61, 0x64, 0x6D, 0x65, 0x2E, 0x78, 0x74]
  {
    assert Lowered(base) == [0x72, 0x65, 0x61, 0x64, 0x6D, 0x65];
    assert ext[1..] == [0x58, 0x54];
    assert Lowered([0x58, 0x54]) == [0x78, 0x74];
  }
}
