/**
 * Circular doubly linked lists (list.h).  A node is a number; `nx` and `pv` hold every node's two
 * pointers, as the intrusive list_head fields of the pages and the free-list heads do.
 */
module Lists {

  /** The ring through `h` holds exactly `s`, forwards along `nx` and backwards along `pv`. */
  ghost predicate Ring(nx: seq<nat>, pv: seq<nat>, h: nat, s: seq<nat>) {
    && |nx| == |pv| && h < |nx| && h !in s && Distinct(s)
    && (forall i :: 0 <= i < |s| ==> s[i] < |nx|)
    && nx[h] == (if s == [] then h else s[0])
    && pv[h] == (if s == [] then h else s[|s| - 1])
    && (forall i {:trigger nx[s[i]]} :: 0 <= i < |s| ==> nx[s[i]] == if i + 1 < |s| then s[i + 1] else h)
    && (forall i {:trigger pv[s[i]]} :: 0 <= i < |s| ==> pv[s[i]] == if i > 0 then s[i - 1] else h)
  }

  ghost predicate Distinct(s: seq<nat>) {
    forall i, j :: 0 <= i < j < |s| ==> s[i] != s[j]
  }

  /** `s` without its element `k`. */
  function Without(s: seq<nat>, k: nat): (r: seq<nat>)
    requires k < |s|
    ensures |r| == |s| - 1
    ensures forall i :: 0 <= i < |r| ==> r[i] == s[if i < k then i else i + 1]
  {
    s[..k] + s[k + 1..]
  }

  /** `node` and its neighbours are the only nodes whose pointers may differ. */
  ghost predicate Elsewhere(a: seq<nat>, b: seq<nat>, h: nat, s: seq<nat>, node: nat) {
    |a| == |b| && forall x :: 0 <= x < |a| && x != h && x !in s && x != node ==> a[x] == b[x]
  }

  // init_list_head
  method InitListHead(nx: array<nat>, pv: array<nat>, h: nat)
    requires h < nx.Length == pv.Length && nx != pv
    modifies nx, pv
    ensures Ring(nx[..], pv[..], h, [])
    ensures nx[..] == old(nx[..])[h := h] && pv[..] == old(pv[..])[h := h]
  {
    nx[h], pv[h] := h, h;
  }

  // list_add: `new_` goes right after `at`
  method ListAdd(nx: array<nat>, pv: array<nat>, new_: nat, at: nat)
    requires nx.Length == pv.Length && nx != pv && new_ < nx.Length && at < nx.Length && nx[at] < nx.Length
    requires new_ != at && new_ != nx[at]
    modifies nx, pv
    ensures nx[..] == old(nx[..])[new_ := old(nx[at])][at := new_]
    ensures pv[..] == old(pv[..])[new_ := at][old(nx[at]) := new_]
  {
    nx[new_] := nx[at];
    pv[new_] := at;
    pv[nx[at]] := new_;
    nx[at] := new_;
  }

  // list_append: `new_` becomes the last node of the ring of `h`
  method ListAppend(nx: array<nat>, pv: array<nat>, new_: nat, h: nat, ghost s: seq<nat>)
    requires nx != pv && Ring(nx[..], pv[..], h, s) && new_ < nx.Length && new_ != h && new_ !in s
    modifies nx, pv
    ensures Ring(nx[..], pv[..], h, s + [new_])
    ensures Elsewhere(old(nx[..]), nx[..], h, s, new_) && Elsewhere(old(pv[..]), pv[..], h, s, new_)
  {
    var tail := pv[h];
    assert s != [] ==> nx[..][s[|s| - 1]] == h;
    ListAdd(nx, pv, new_, tail);
    AppendedRing(old(nx[..]), old(pv[..]), h, s, new_);
  }

  lemma AppendedRing(nx: seq<nat>, pv: seq<nat>, h: nat, s: seq<nat>, n: nat)
    requires Ring(nx, pv, h, s) && n < |nx| && n != h && n !in s
    ensures pv[h] < |nx| && nx[pv[h]] == h && n != pv[h]
    ensures var t := pv[h];
      var nx', pv' := nx[n := h][t := n], pv[n := t][h := n];
      Ring(nx', pv', h, s + [n]) && Elsewhere(nx, nx', h, s, n) && Elsewhere(pv, pv', h, s, n)
  {
    if s != [] { assert nx[s[|s| - 1]] == h; }
    var t := pv[h];
    var nx', pv', r := nx[n := h][t := n], pv[n := t][h := n], s + [n];
    forall i | 0 <= i < |r|
      ensures nx'[r[i]] == if i + 1 < |r| then r[i + 1] else h
      ensures pv'[r[i]] == if i > 0 then r[i - 1] else h
    {
      if i < |s| {
        assert nx[s[i]] == if i + 1 < |s| then s[i + 1] else h;
        assert pv[s[i]] == if i > 0 then s[i - 1] else h;
      }
    }
  }

  // list_del
  method ListDel(nx: array<nat>, pv: array<nat>, node: nat, ghost h: nat, ghost s: seq<nat>, ghost k: nat)
    requires nx != pv && Ring(nx[..], pv[..], h, s) && k < |s| && s[k] == node
    modifies nx, pv
    ensures Ring(nx[..], pv[..], h, Without(s, k))
    ensures Elsewhere(old(nx[..]), nx[..], h, s, node) && Elsewhere(old(pv[..]), pv[..], h, s, node)
  {
    DeletedRing(nx[..], pv[..], h, s, k);
    nx[pv[node]] := nx[node];
    pv[nx[node]] := pv[node];
  }

  lemma DeletedRing(nx: seq<nat>, pv: seq<nat>, h: nat, s: seq<nat>, k: nat)
    requires Ring(nx, pv, h, s) && k < |s|
    ensures var node := s[k];
      && node < |nx| && pv[node] < |nx| && nx[node] < |nx| && pv[node] != node
      && var nx', pv' := nx[pv[node] := nx[node]], pv[nx[node] := pv[node]];
         Ring(nx', pv', h, Without(s, k)) && Elsewhere(nx, nx', h, s, node) && Elsewhere(pv, pv', h, s, node)
  {
    hide Ring, Without, Distinct;
    DeletedEnds(nx, pv, h, s, k);
    var node, r := s[k], Without(s, k);
    var a, b := if k > 0 then s[k - 1] else h, if k + 1 < |s| then s[k + 1] else h;
    var nx', pv' := nx[a := b], pv[b := a];
    forall i | 0 <= i < |r|
      ensures nx'[r[i]] == if i + 1 < |r| then r[i + 1] else h
      ensures pv'[r[i]] == if i > 0 then r[i - 1] else h
    {
      DeletedLink(nx, pv, h, s, k, i);
    }
    MakeRing(nx', pv', h, r);
  }

  lemma MakeRing(nx: seq<nat>, pv: seq<nat>, h: nat, s: seq<nat>)
    requires |nx| == |pv| && h < |nx| && h !in s && Distinct(s) && forall i :: 0 <= i < |s| ==> s[i] < |nx|
    requires nx[h] == (if s == [] then h else s[0]) && pv[h] == (if s == [] then h else s[|s| - 1])
    requires forall i :: 0 <= i < |s| ==> nx[s[i]] == if i + 1 < |s| then s[i + 1] else h
    requires forall i :: 0 <= i < |s| ==> pv[s[i]] == if i > 0 then s[i - 1] else h
    ensures Ring(nx, pv, h, s)
  {
  }

  /** The head's own pointers after a removal, and which nodes it touched. */
  lemma DeletedEnds(nx: seq<nat>, pv: seq<nat>, h: nat, s: seq<nat>, k: nat)
    requires Ring(nx, pv, h, s) && k < |s|
    ensures var r := Without(s, k);
      var a, b := if k > 0 then s[k - 1] else h, if k + 1 < |s| then s[k + 1] else h;
      && |nx| == |pv| && h < |nx| && s[k] < |nx| && pv[s[k]] == a != s[k] && nx[s[k]] == b
      && a < |nx| && b < |nx| && Distinct(r) && h !in r && (forall i :: 0 <= i < |r| ==> r[i] < |nx|)
      && (a == h || a in s) && (b == h || b in s)
      && nx[a := b][h] == (if r == [] then h else r[0]) && pv[b := a][h] == (if r == [] then h else r[|r| - 1])
  {
    var r := Without(s, k);
    if k > 0 { assert s[k - 1] in s; }
    if k + 1 < |s| { assert s[k + 1] in s; }
    assert forall i :: 0 <= i < |r| ==> r[i] in s;
  }

  lemma DeletedLink(nx: seq<nat>, pv: seq<nat>, h: nat, s: seq<nat>, k: nat, i: nat)
    requires Ring(nx, pv, h, s) && k < |s| && i < |s| - 1
    ensures var r := Without(s, k);
      var a, b := if k > 0 then s[k - 1] else h, if k + 1 < |s| then s[k + 1] else h;
      && r[i] < |nx| && a < |nx| && b < |nx|
      && nx[a := b][r[i]] == (if i + 1 < |r| then r[i + 1] else h)
      && pv[b := a][r[i]] == (if i > 0 then r[i - 1] else h)
  {
    var j := if i < k then i else i + 1;
    assert nx[s[j]] == if j + 1 < |s| then s[j + 1] else h;
    assert pv[s[j]] == if j > 0 then s[j - 1] else h;
    assert s[j] in s;
  }

  // list_empty
  method ListEmpty(nx: array<nat>, pv: array<nat>, h: nat, ghost s: seq<nat>) returns (b: bool)
    requires Ring(nx[..], pv[..], h, s)
    ensures b <==> s == []
  {
    b := pv[h] == h && nx[h] == h;
  }

  /** A ring none of whose nodes changed is still there. */
  lemma RingElsewhere(nx: seq<nat>, pv: seq<nat>, nx': seq<nat>, pv': seq<nat>, h: nat, s: seq<nat>, g: nat, t: seq<nat>, node: nat)
    requires Ring(nx, pv, g, t) && Elsewhere(nx, nx', h, s, node) && Elsewhere(pv, pv', h, s, node)
    requires g != h && g !in s && g != node && h !in t && node !in t && forall x :: x in t ==> x !in s
    ensures Ring(nx', pv', g, t)
  {
    forall i | 0 <= i < |t|
      ensures nx'[t[i]] == nx[t[i]] && pv'[t[i]] == pv[t[i]]
    {
      assert t[i] in t;
    }
  }
}
