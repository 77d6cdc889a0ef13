/** Arithmetic modulo a word-sized modulus, as the field code of the repository relies on it:
    congruences, powers, Euclid's lemma and Fermat's little theorem, which is what makes
    `a^(p-2)` the inverse of `a` in the interpolation and in the Montgomery inversion. */
module ModArith {

  ghost predicate Cong(a: int, b: int, p: int)
    requires p > 0
  {
    a % p == b % p
  }

  ghost predicate Prime(p: int) {
    p >= 2 && forall d :: 1 < d < p ==> p % d != 0
  }

  function Pow(x: int, e: nat): int {
    if e == 0 then 1 else x * Pow(x, e - 1)
  }

  /** a1 * ... * an of a sequence. */
  function Product(s: seq<int>): int {
    if s == [] then 1 else s[0] * Product(s[1..])
  }

  lemma CongSym(a: int, b: int, p: int)
    requires p > 0 && Cong(a, b, p)
    ensures Cong(b, a, p)
  {
  }

  lemma CongTrans(a: int, b: int, c: int, p: int)
    requires p > 0 && Cong(a, b, p) && Cong(b, c, p)
    ensures Cong(a, c, p)
  {
  }

  lemma MulLess(q: int, p: int)
    requires p > 0
    ensures q >= 1 ==> q * p >= p
    ensures q <= -1 ==> q * p <= -p
  {
  }

  /** Quotient and remainder are determined by a == q*p + r with 0 <= r < p. */
  lemma DivModUnique(a: int, q: int, r: int, p: int)
    requires p > 0 && 0 <= r < p && a == q * p + r
    ensures a % p == r && a / p == q
  {
    var q', r' := a / p, a % p;
    assert a == q' * p + r';
    assert (q - q') * p == r' - r;
    MulLess(q - q', p);
  }

  lemma ModMultiple(q: int, p: int)
    requires p > 0
    ensures (q * p) % p == 0
  {
    DivModUnique(q * p, q, 0, p);
  }

  lemma CongWitness(a: int, b: int, k: int, p: int)
    requires p > 0 && a == b + k * p
    ensures Cong(a, b, p)
  {
    var q, r := b / p, b % p;
    assert b == q * p + r;
    assert a == (q + k) * p + r;
    DivModUnique(a, q + k, r, p);
  }

  lemma CongQuotient(a: int, b: int, p: int) returns (k: int)
    requires p > 0 && Cong(a, b, p)
    ensures a == b + k * p
  {
    k := a / p - b / p;
    assert a == (a / p) * p + a % p;
    assert b == (b / p) * p + b % p;
  }

  lemma CongMod(a: int, p: int)
    requires p > 0
    ensures Cong(a % p, a, p)
  {
    assert a == (a / p) * p + a % p;
    CongWitness(a, a % p, a / p, p);
  }

  lemma CongAdd(a: int, b: int, c: int, d: int, p: int)
    requires p > 0 && Cong(a, b, p) && Cong(c, d, p)
    ensures Cong(a + c, b + d, p)
  {
    var k := CongQuotient(a, b, p);
    var l := CongQuotient(c, d, p);
    assert a + c == b + d + (k + l) * p;
    CongWitness(a + c, b + d, k + l, p);
  }

  lemma CongSub(a: int, b: int, c: int, d: int, p: int)
    requires p > 0 && Cong(a, b, p) && Cong(c, d, p)
    ensures Cong(a - c, b - d, p)
  {
    var k := CongQuotient(a, b, p);
    var l := CongQuotient(c, d, p);
    assert a - c == b - d + (k - l) * p;
    CongWitness(a - c, b - d, k - l, p);
  }

  /** The same number on both sides. */
  lemma CongShift(a: int, b: int, c: int, p: int)
    requires p > 0 && Cong(a, b, p)
    ensures Cong(c + a, c + b, p) && Cong(a - c, b - c, p)
  {
    CongAdd(c, c, a, b, p);
    CongSub(a, b, c, c, p);
  }

  lemma CongScale(a: int, b: int, c: int, p: int)
    requires p > 0 && Cong(a, b, p)
    ensures Cong(a * c, b * c, p) && Cong(c * a, c * b, p)
  {
    var k := CongQuotient(a, b, p);
    assert a * c == (b + k * p) * c == b * c + (k * c) * p;
    CongWitness(a * c, b * c, k * c, p);
  }

  lemma CongMul(a: int, b: int, c: int, d: int, p: int)
    requires p > 0 && Cong(a, b, p) && Cong(c, d, p)
    ensures Cong(a * c, b * d, p)
  {
    CongScale(a, b, c, p);
    CongScale(c, d, b, p);
  }

  /** A difference that is 0 mod p and smaller than p is 0. */
  lemma CongSmall(a: int, b: int, p: int)
    requires p > 0 && 0 <= a < p && 0 <= b < p && Cong(a, b, p)
    ensures a == b
  {
    DivModUnique(a, 0, a, p);
    DivModUnique(b, 0, b, p);
  }

  lemma CongZero(a: int, b: int, p: int)
    requires p > 0
    ensures Cong(a, b, p) <==> (a - b) % p == 0
  {
    if Cong(a, b, p) {
      CongSub(a, b, b, b, p);
    }
    if (a - b) % p == 0 {
      DivModUnique(0, 0, 0, p);
      CongAdd(a - b, 0, b, b, p);
    }
  }

  lemma MulAssoc(a: int, b: int, c: int)
    ensures a * (b * c) == (a * b) * c
  {
  }

  lemma {:induction false} PowAdd(x: int, d: nat, e: nat)
    ensures Pow(x, d + e) == Pow(x, d) * Pow(x, e)
  {
    if d > 0 {
      PowAdd(x, d - 1, e);
      assert Pow(x, d + e) == x * Pow(x, d - 1 + e);
      MulAssoc(x, Pow(x, d - 1), Pow(x, e));
    }
  }

  lemma {:induction false} PowMul(x: int, d: nat, e: nat)
    ensures 0 <= d * e && Pow(x, d * e) == Pow(Pow(x, d), e)
  {
    if e == 0 {
    } else {
      PowMul(x, d, e - 1);
      assert d * e == d + d * (e - 1);
      PowAdd(x, d, d * (e - 1));
    }
  }

  lemma {:induction false} CongPow(a: int, b: int, e: nat, p: int)
    requires p > 0 && Cong(a, b, p)
    ensures Cong(Pow(a, e), Pow(b, e), p)
  {
    if e > 0 {
      CongPow(a, b, e - 1, p);
      CongMul(a, b, Pow(a, e - 1), Pow(b, e - 1), p);
    }
  }

  /** Euclid's lemma, by the remainders p % a, p % (p % a), ... */
  lemma {:induction false} EuclidStep(a: int, b: int, p: int)
    requires Prime(p) && 0 < a < p && (a * b) % p == 0
    ensures b % p == 0
    decreases a
  {
    if a > 1 {
      var r, q := p % a, p / a;
      assert p == q * a + r;
      CongMul(a * b, 0, q, q, p) by { DivModUnique(0, 0, 0, p); }
      ModMultiple(b, p);
      DivModUnique(0, 0, 0, p);
      CongSub(b * p, 0, (a * b) * q, 0 * q, p);
      assert b * p - (a * b) * q == r * b by {
        assert b * p == b * (q * a + r) == (a * b) * q + r * b;
      }
      EuclidStep(r, b, p);
    }
  }

  lemma Euclid(a: int, b: int, p: int)
    requires Prime(p)
    ensures (a * b) % p == 0 <==> a % p == 0 || b % p == 0
  {
    DivModUnique(0, 0, 0, p);
    if (a * b) % p == 0 && a % p != 0 {
      CongMod(a, p);
      CongMul(a % p, a, b, b, p);
      EuclidStep(a % p, b, p);
    }
    if a % p == 0 { CongMul(a, 0, b, b, p); }
    if b % p == 0 { CongMul(a, a, b, 0, p); }
  }

  lemma Cancel(a: int, b: int, c: int, p: int)
    requires Prime(p) && a % p != 0 && Cong(a * b, a * c, p)
    ensures Cong(b, c, p)
  {
    CongZero(a * b, a * c, p);
    assert a * b - a * c == a * (b - c);
    Euclid(a, b - c, p);
    CongZero(b, c, p);
  }

  // ---------- Fermat's little theorem ----------

  function Factorial(n: nat): int {
    if n == 0 then 1 else n * Factorial(n - 1)
  }

  ghost predicate Distinct(s: seq<int>) {
    forall i, j :: 0 <= i < j < |s| ==> s[i] != s[j]
  }

  lemma {:induction false} ProductSplit(s: seq<int>, k: nat)
    requires k < |s|
    ensures Product(s) == s[k] * Product(s[..k] + s[k + 1..])
  {
    if k == 0 {
      assert s[..0] + s[1..] == s[1..];
    } else {
      ProductSplit(s[1..], k - 1);
      var t := s[..k] + s[k + 1..];
      assert t[0] == s[0] && t[1..] == s[1..][..k - 1] + s[1..][k..];
      MulAssoc(s[0], s[k], Product(t[1..]));
      MulAssoc(s[k], s[0], Product(t[1..]));
    }
  }

  /** Distinct values in 1..n are at most n many (a pigeonhole by cardinality). */
  lemma {:induction false} DistinctBound(s: seq<int>, n: nat)
    requires Distinct(s) && forall i :: 0 <= i < |s| ==> 1 <= s[i] <= n
    ensures |s| <= n
  {
    if |s| > 0 {
      assert 1 <= s[0] <= n;
      if k :| 0 <= k < |s| && s[k] == n {
        DistinctBound(s[..k] + s[k + 1..], n - 1);
      } else {
        DistinctBound(s, n - 1);
      }
    }
  }

  /** n distinct values in 1..n multiply to n!. */
  lemma {:induction false} PermutationProduct(s: seq<int>, n: nat)
    requires |s| == n && Distinct(s) && forall i :: 0 <= i < |s| ==> 1 <= s[i] <= n
    ensures Product(s) == Factorial(n)
  {
    if n > 0 {
      if k :| 0 <= k < |s| && s[k] == n {
        ProductSplit(s, k);
        PermutationProduct(s[..k] + s[k + 1..], n - 1);
      } else {
        DistinctBound(s, n - 1);
      }
    }
  }

  /** The residues of a, 2a, ..., na. */
  function Multiples(a: int, n: nat, p: int): (s: seq<int>)
    requires p > 0
    ensures |s| == n && forall i :: 0 <= i < n ==> s[i] == (a * (i + 1)) % p
  {
    if n == 0 then [] else Multiples(a, n - 1, p) + [(a * n) % p]
  }

  lemma {:induction false} ProductAppend(s: seq<int>, x: int)
    ensures Product(s + [x]) == Product(s) * x
  {
    ProductSplit(s + [x], |s|);
    assert (s + [x])[..|s|] + (s + [x])[|s| + 1..] == s;
  }

  lemma Interchange(a: int, b: int, c: int, d: int)
    ensures (a * b) * (c * d) == (c * a) * (d * b)
  {
    assert (a * b) * (c * d) == a * (b * (c * d)) == a * ((b * c) * d);
    assert (c * a) * (d * b) == c * (a * (d * b));
  }

  lemma {:induction false} MultiplesProduct(a: int, n: nat, p: int)
    requires p > 0
    ensures Cong(Product(Multiples(a, n, p)), Pow(a, n) * Factorial(n), p)
  {
    if n == 0 {
      assert Product(Multiples(a, 0, p)) == 1 == Pow(a, 0) * Factorial(0);
    } else {
      var m, f := Product(Multiples(a, n - 1, p)), Pow(a, n - 1) * Factorial(n - 1);
      MultiplesProduct(a, n - 1, p);
      MultiplesProductNext(a, n, p);
      CongMod(a * n, p);
      CongMul(m, f, (a * n) % p, a * n, p);
      Interchange(Pow(a, n - 1), Factorial(n - 1), a, n);
    }
  }

  lemma MultiplesProductNext(a: int, n: nat, p: int)
    requires p > 0 && n > 0
    ensures Product(Multiples(a, n, p)) == Product(Multiples(a, n - 1, p)) * ((a * n) % p)
  {
    ProductAppend(Multiples(a, n - 1, p), (a * n) % p);
  }

  lemma {:induction false} FactorialCoprime(n: nat, p: int)
    requires Prime(p) && n < p
    ensures Factorial(n) % p != 0
  {
    if n > 0 {
      FactorialCoprime(n - 1, p);
      DivModUnique(n, 0, n, p);
      Euclid(n, Factorial(n - 1), p);
    } else {
      DivModUnique(1, 0, 1, p);
    }
  }

  lemma MultiplesPermute(a: int, p: int)
    requires Prime(p) && a % p != 0
    ensures Product(Multiples(a, p - 1, p)) == Factorial(p - 1)
  {
    var s := Multiples(a, p - 1, p);
    forall i, j | 0 <= i < j < |s| ensures s[i] != s[j] {
      if s[i] == s[j] {
        Cancel(a, i + 1, j + 1, p);
        CongSmall(i + 1, j + 1, p);
      }
    }
    forall i | 0 <= i < |s| ensures 1 <= s[i] <= p - 1 {
      Euclid(a, i + 1, p);
      DivModUnique(i + 1, 0, i + 1, p);
    }
    PermutationProduct(s, p - 1);
  }

  /** For a prime p, a^(p-1) is 1 for every a that is not 0. */
  lemma Fermat(a: int, p: int)
    requires Prime(p) && a % p != 0
    ensures Cong(Pow(a, p - 1), 1, p)
  {
    MultiplesPermute(a, p);
    MultiplesProduct(a, p - 1, p);
    var f, x := Factorial(p - 1), Pow(a, p - 1);
    FactorialCoprime(p - 1, p);
    assert x * f == f * x && f * 1 == f;
    Cancel(f, 1, x, p);
  }

  /** The inverse the code computes: a * a^(p-2) is 1. */
  lemma FermatInverse(a: int, p: int)
    requires Prime(p) && a % p != 0
    ensures Cong(a * Pow(a, p - 2), 1, p)
  {
    Fermat(a, p);
  }
}
