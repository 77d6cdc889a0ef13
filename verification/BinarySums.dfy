/** Signed binary expansions: a[0] + 2 a[1] + 4 a[2] + ... */
module BinarySums {
  import opened ModArith

  function Pow2(n: nat): (r: nat)
    ensures r > 0
  {
    if n == 0 then 1 else 2 * Pow2(n - 1)
  }

  lemma {:induction false} Pow2Add(m: nat, n: nat)
    ensures Pow2(m + n) == Pow2(m) * Pow2(n)
  {
    if m > 0 {
      Pow2Add(m - 1, n);
      MulAssoc(2, Pow2(m - 1), Pow2(n));
    }
  }

  /** sum of a[start + j] * 2^j over j < n */
  function Expansion(a: seq<int>, start: nat, n: nat): int
    requires start + n <= |a|
  {
    if n == 0 then 0 else Expansion(a, start, n - 1) + Pow2(n - 1) * a[start + n - 1]
  }

  lemma {:induction false} ExpansionExtends(a: seq<int>, b: seq<int>, start: nat, n: nat)
    requires start + n <= |a| && start + n <= |b| && forall i :: start <= i < start + n ==> a[i] == b[i]
    ensures Expansion(a, start, n) == Expansion(b, start, n)
  {
    if n > 0 {
      ExpansionExtends(a, b, start, n - 1);
    }
  }

  lemma TwiceTerm(s: int, p: int, x: int, y: int, head: int)
    requires s == head + 2 * y
    ensures s + 2 * p * x == head + 2 * (y + p * x)
  {
    MulAssoc(2, p, x);
  }

  /** The least digit comes off as in Horner's rule. */
  lemma {:induction false} ExpansionFront(a: seq<int>, start: nat, n: nat)
    requires n > 0 && start + n <= |a|
    ensures Expansion(a, start, n) == a[start] + 2 * Expansion(a, start + 1, n - 1)
  {
    if n == 1 {
      assert Pow2(0) == 1;
      assert Expansion(a, start, 1) == Expansion(a, start, 0) + Pow2(0) * a[start];
    } else {
      ExpansionFront(a, start, n - 1);
      TwiceTerm(Expansion(a, start, n - 1), Pow2(n - 2), a[start + n - 1], Expansion(a, start + 1, n - 2), a[start]);
      assert Pow2(n - 1) == 2 * Pow2(n - 2);
    }
  }
}
