/** Products and quotients of naturals. */
module Arithmetic {
  const U32 := 0x1_0000_0000

  lemma {:induction false} MulMono(a: nat, b: nat, m: nat)
    requires a <= b
    ensures a * m <= b * m
  {
    assert b * m == a * m + (b - a) * m;
  }

  lemma MulSucc(a: nat, m: nat)
    ensures (a + 1) * m == a * m + m
  {
  }

  lemma DivBound(k: nat, m: nat, n: nat)
    requires m >= 1 && k < n * m
    ensures k / m < n && k % m < m
  {
    assert k == k / m * m + k % m;
    if k / m >= n {
      MulMono(n, k / m, m);
    }
  }

  lemma DivExact(n: nat, r: nat, m: nat)
    requires r < m
    ensures (n * m + r) / m == n && (n * m + r) % m == r
  {
    var k := n * m + r;
    assert k == k / m * m + k % m;
    if k / m > n {
      MulMono(n + 1, k / m, m);
      MulSucc(n, m);
    } else if k / m < n {
      MulMono(k / m + 1, n, m);
      MulSucc(k / m, m);
    }
  }

  /** Counting on by one moves to the next cluster exactly at the end of the current one. */
  lemma DivStep(k: nat, m: nat)
    requires m >= 1
    ensures if k % m + 1 == m then (k + 1) / m == k / m + 1 && (k + 1) % m == 0
            else (k + 1) / m == k / m && (k + 1) % m == k % m + 1
  {
    assert k == k / m * m + k % m;
    if k % m + 1 == m {
      MulSucc(k / m, m);
      DivExact(k / m + 1, 0, m);
    } else {
      DivExact(k / m, k % m + 1, m);
    }
  }
}
