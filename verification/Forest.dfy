/** Runs of file creation, growth and removal over one table: the chain forest and its accounting. */
module Forest {
  import opened Chains

  /** A table, the cluster chains of the files on it, and where the last search ended. */
  datatype Volume = Volume(t: Tab, files: seq<seq<nat>>, last: nat)

  datatype Op =
    | Create                     // fat_write on an empty file allocates its first cluster
    | Grow(file: nat, at: nat)   // fat_alloc_next_cluster from the `at`-th cluster of a file
    | Remove(file: nat)          // fat_chain_unlink

  ghost function Clusters(fs: seq<seq<nat>>): set<nat> {
    set i, j | 0 <= i < |fs| && 0 <= j < |fs[i]| :: fs[i][j]
  }

  ghost predicate Disjoint(fs: seq<seq<nat>>) {
    forall i, j, x :: 0 <= i < j < |fs| && x in fs[i] ==> x !in fs[j]
  }

  ghost predicate Valid(v: Volume, eoc: nat, count: nat) {
    && |v.t| <= eoc && 2 <= v.last <= |v.t| && count <= |v.t|
    && (forall i :: 0 <= i < |v.files| ==> IsChain(v.t, eoc, v.files[i]))
    && Disjoint(v.files)
  }

  /** Entries in use that belong to no file: the two reserved ones, bad and lost clusters. */
  ghost function Unowned(v: Volume): set<nat> { InUse(v.t) - Clusters(v.files) }

  ghost function Step(v: Volume, eoc: nat, count: nat, op: Op): Volume
    requires Valid(v, eoc, count)
  {
    match op
    case Create =>
      var n := NextFree(v.t, v.last, count);
      if n == 0 then v else Volume(v.t[n := eoc], v.files + [[n]], n)
    case Grow(i, j) =>
      if i < |v.files| && j < |v.files[i]| && v.t[v.files[i][j]] == eoc then
        var n := NextFree(v.t, v.last, count);
        if n == 0 then v
        else Volume(v.t[n := eoc][v.files[i][j] := n], v.files[i := v.files[i] + [n]], n)
      else v
    case Remove(i) =>
      if i < |v.files| then
        ChainInRange(v.t, eoc, v.files[i]);
        Volume(Unlink(v.t, eoc, v.files[i][0]), v.files[..i] + v.files[i + 1..], v.last)
      else v
  }

  ghost function Run(v: Volume, eoc: nat, count: nat, ops: seq<Op>): Volume
    requires Valid(v, eoc, count)
    decreases |ops|
  {
    if ops == [] then v else
      StepKeeps(v, eoc, count, ops[0]);
      Run(Step(v, eoc, count, ops[0]), eoc, count, ops[1..])
  }

  /** Chains not touching the changed entries stay chains. */
  lemma ChainUntouched(t: Tab, t': Tab, eoc: nat, ch: seq<nat>)
    requires IsChain(t, eoc, ch) && |t'| == |t|
    requires forall x :: x in ch ==> t'[x] == t[x]
    ensures IsChain(t', eoc, ch)
  {
    assert forall i :: 0 <= i < |ch| ==> ch[i] in ch;
  }

  /** Linking a free cluster behind the last one makes the chain one longer. */
  lemma ChainGrown(t: Tab, eoc: nat, ch: seq<nat>, n: nat)
    requires IsChain(t, eoc, ch) && 2 <= n < |t| && t[n] == 0
    ensures n !in ch && IsChain(t[n := eoc][ch[|ch| - 1] := n], eoc, ch + [n])
  {
    if n in ch { ChainInUse(t, eoc, ch, n); }
    ChainDistinct(t, eoc, ch);
    var u := t[n := eoc][ch[|ch| - 1] := n];
    forall i | 0 <= i < |ch + [n]| - 1
      ensures u[(ch + [n])[i]] == (ch + [n])[i + 1]
    {
    }
  }

  /** Only the last cluster of a chain carries the end marker. */
  lemma OnlyLastEnds(t: Tab, eoc: nat, ch: seq<nat>, j: nat)
    requires IsChain(t, eoc, ch) && j < |ch| && t[ch[j]] == eoc
    ensures j == |ch| - 1
  {
  }

  /** A free cluster belongs to no file. */
  lemma FreeIsUnowned(v: Volume, eoc: nat, count: nat, n: nat)
    requires Valid(v, eoc, count) && n < |v.t| && v.t[n] == 0
    ensures forall i :: 0 <= i < |v.files| ==> n !in v.files[i]
  {
    forall i | 0 <= i < |v.files| && n in v.files[i] ensures false {
      ChainInUse(v.t, eoc, v.files[i], n);
    }
  }

  /**
   * One operation keeps the chains whole, acyclic and pairwise disjoint; growth appends one
   * previously free cluster to one file, removal frees one file's clusters, and nothing in use
   * that no file owns is touched.
   */
  lemma StepKeeps(v: Volume, eoc: nat, count: nat, op: Op)
    requires Valid(v, eoc, count)
    ensures var w := Step(v, eoc, count, op);
      Valid(w, eoc, count) && Unowned(w) == Unowned(v)
  {
    match op
    case Create => CreateKeeps(v, eoc, count);
    case Grow(i, j) => GrowKeeps(v, eoc, count, i, j);
    case Remove(i) => if i < |v.files| { RemoveKeeps(v, eoc, count, i); }
  }

  /** Either one free cluster is taken and the files become `fs`, or none was free in [2, count). */
  ghost predicate Takes(v: Volume, w: Volume, count: nat, fs: seq<seq<nat>>) {
    if w.t == v.t then w == v && forall i :: 2 <= i < count && i < |v.t| ==> v.t[i] != 0
    else w.last !in InUse(v.t) && InUse(w.t) == InUse(v.t) + {w.last} && w.files == fs
  }

  lemma CreateKeeps(v: Volume, eoc: nat, count: nat)
    requires Valid(v, eoc, count)
    ensures var w := Step(v, eoc, count, Create);
      Valid(w, eoc, count) && Unowned(w) == Unowned(v) && Takes(v, w, count, v.files + [[w.last]])
  {
    var n := NextFree(v.t, v.last, count);
    if n == 0 {
      NextFreeComplete(v.t, v.last, count);
    } else {
      var w := Step(v, eoc, count, Create);
      assert InUse(w.t) == InUse(v.t) + {n};
      FreeIsUnowned(v, eoc, count, n);
      forall i | 0 <= i < |w.files|
        ensures IsChain(w.t, eoc, w.files[i])
      {
        if i < |v.files| { ChainUntouched(v.t, w.t, eoc, v.files[i]); }
      }
      ClustersOfAppend(v.files, [n]);
    }
  }

  /** Growth takes a cluster exactly at the last cluster of a file, and appends it to that file. */
  lemma GrowKeeps(v: Volume, eoc: nat, count: nat, i: nat, j: nat)
    requires Valid(v, eoc, count)
    ensures var w := Step(v, eoc, count, Grow(i, j));
      && Valid(w, eoc, count) && Unowned(w) == Unowned(v)
      && if i < |v.files| && j == |v.files[i]| - 1 then Takes(v, w, count, v.files[i := v.files[i] + [w.last]]) else w == v
  {
    var n := NextFree(v.t, v.last, count);
    if i < |v.files| && j < |v.files[i]| && v.t[v.files[i][j]] == eoc {
      OnlyLastEnds(v.t, eoc, v.files[i], j);
      if n == 0 {
        NextFreeComplete(v.t, v.last, count);
      } else {
        Linked(v, eoc, count, i, n);
      }
    }
  }

  lemma Linked(v: Volume, eoc: nat, count: nat, i: nat, n: nat)
    requires Valid(v, eoc, count) && i < |v.files| && 2 <= n < |v.t| && v.t[n] == 0
    ensures var ch := v.files[i];
      var w := Volume(v.t[n := eoc][ch[|ch| - 1] := n], v.files[i := ch + [n]], n);
      Valid(w, eoc, count) && Unowned(w) == Unowned(v) && w.t != v.t && n !in InUse(v.t) && InUse(w.t) == InUse(v.t) + {n}
  {
    var ch := v.files[i];
    var c := ch[|ch| - 1];
    var w := Volume(v.t[n := eoc][c := n], v.files[i := ch + [n]], n);
    FreeIsUnowned(v, eoc, count, n);
    assert c in ch;
    forall k | 0 <= k < |w.files|
      ensures IsChain(w.t, eoc, w.files[k])
    {
      if k == i {
        ChainGrown(v.t, eoc, ch, n);
      } else {
        assert c !in v.files[k];
        ChainUntouched(v.t, w.t, eoc, v.files[k]);
      }
    }
    assert w.t[n] != 0;
    GrowthDisjoint(v.files, i, n);
    ClustersOfGrowth(v.files, i, n);
    assert InUse(w.t) == InUse(v.t) + {n};
  }

  lemma GrowthDisjoint(fs: seq<seq<nat>>, i: nat, n: nat)
    requires i < |fs| && Disjoint(fs) && forall k :: 0 <= k < |fs| ==> n !in fs[k]
    ensures Disjoint(fs[i := fs[i] + [n]])
  {
  }

  lemma RemoveKeeps(v: Volume, eoc: nat, count: nat, i: nat)
    requires Valid(v, eoc, count) && i < |v.files|
    ensures var w := Step(v, eoc, count, Remove(i));
      && Valid(w, eoc, count) && Unowned(w) == Unowned(v)
      && InUse(w.t) == InUse(v.t) - (set x | x in v.files[i])
  {
    var w := Step(v, eoc, count, Remove(i));
    var ch := v.files[i];
    forall x | 0 <= x < |v.t|
      ensures w.t[x] == if x in ch then 0 else v.t[x]
    {
      UnlinkChain(v.t, eoc, ch, x);
    }
    forall k | 0 <= k < |w.files|
      ensures IsChain(w.t, eoc, w.files[k])
    {
      var k' := if k < i then k else k + 1;
      assert w.files[k] == v.files[k'];
      ChainUntouched(v.t, w.t, eoc, w.files[k]);
    }
    ClustersOfRemoval(v.files, i);
    assert InUse(w.t) == InUse(v.t) - (set x | x in ch);
  }

  lemma ClustersOfAppend(fs: seq<seq<nat>>, f: seq<nat>)
    ensures Clusters(fs + [f]) == Clusters(fs) + (set x | x in f)
  {
    var gs := fs + [f];
    forall x | x in Clusters(fs) ensures x in Clusters(gs) {
      var i, j :| 0 <= i < |fs| && 0 <= j < |fs[i]| && fs[i][j] == x;
      assert gs[i][j] == x;
    }
    forall x | x in f ensures x in Clusters(gs) {
      var j :| 0 <= j < |f| && f[j] == x;
      assert gs[|fs|][j] == x;
    }
  }

  lemma ClustersOfGrowth(fs: seq<seq<nat>>, i: nat, n: nat)
    requires i < |fs|
    ensures Clusters(fs[i := fs[i] + [n]]) == Clusters(fs) + {n}
  {
    var gs := fs[i := fs[i] + [n]];
    assert gs[i][|fs[i]|] == n;
    forall x | x in Clusters(fs) ensures x in Clusters(gs) {
      var k, j :| 0 <= k < |fs| && 0 <= j < |fs[k]| && fs[k][j] == x;
      assert gs[k][j] == x;
    }
  }

  lemma ClustersOfRemoval(fs: seq<seq<nat>>, i: nat)
    requires i < |fs| && Disjoint(fs)
    ensures var gs := fs[..i] + fs[i + 1..];
      Disjoint(gs) && Clusters(gs) == Clusters(fs) - (set x | x in fs[i])
  {
    var gs := fs[..i] + fs[i + 1..];
    assert forall k :: 0 <= k < |gs| ==> gs[k] == fs[if k < i then k else k + 1];
    forall x | x in Clusters(fs) && x !in fs[i] ensures x in Clusters(gs) {
      var k, j :| 0 <= k < |fs| && 0 <= j < |fs[k]| && fs[k][j] == x;
      assert gs[if k < i then k else k - 1][j] == x;
    }
    forall x | x in Clusters(gs) ensures x in Clusters(fs) && x !in fs[i] {
      var k, j :| 0 <= k < |gs| && 0 <= j < |gs[k]| && gs[k][j] == x;
      var k' := if k < i then k else k + 1;
      assert fs[k'][j] == x && x in fs[k'];
    }
  }

  /** Every run keeps the forest, and loses or invents no cluster. */
  lemma {:induction false} RunKeeps(v: Volume, eoc: nat, count: nat, ops: seq<Op>)
    requires Valid(v, eoc, count)
    ensures Valid(Run(v, eoc, count, ops), eoc, count)
    ensures Unowned(Run(v, eoc, count, ops)) == Unowned(v)
    decreases |ops|
  {
    if ops != [] {
      StepKeeps(v, eoc, count, ops[0]);
      RunKeeps(Step(v, eoc, count, ops[0]), eoc, count, ops[1..]);
    }
  }

  /** Growing and then removing a new file gives back the table the run started from. */
  lemma RemoveUndoesCreate(v: Volume, eoc: nat, count: nat)
    requires Valid(v, eoc, count)
    ensures var w := Step(v, eoc, count, Create);
      Valid(w, eoc, count) && (w != v ==> Step(w, eoc, count, Remove(|v.files|)).t == v.t)
  {
    StepKeeps(v, eoc, count, Create);
    var w := Step(v, eoc, count, Create);
    if w != v {
      var n := NextFree(v.t, v.last, count);
      ChainInRange(w.t, eoc, [n]);
      forall x | 0 <= x < |v.t|
        ensures Unlink(w.t, eoc, n)[x] == v.t[x]
      {
        UnlinkChain(w.t, eoc, [n], x);
      }
    }
  }
}
