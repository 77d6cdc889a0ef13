/** Sums the polynomial evaluators build up, one slot at a time, and how the Paterson-Stockmeyer split
    puts them together. */
module SlotPolys {
  import opened ModArith
  import opened Interpolate
  import Slots

  /** The coefficients that slot i sees. */
  function Column(coeffs: seq<Slots.Vec>, i: nat): (c: seq<int>)
    requires forall k :: 0 <= k < |coeffs| ==> i < |coeffs[k]|
    ensures |c| == |coeffs| && forall k :: 0 <= k < |c| ==> c[k] == coeffs[k][i]
  {
    seq(|coeffs|, k requires 0 <= k < |coeffs| => coeffs[k][i])
  }

  ghost predicate Rectangular(coeffs: seq<Slots.Vec>, n: nat) {
    forall k :: 0 <= k < |coeffs| ==> |coeffs[k]| == n
  }

  /** c[0] + c[1] x + ... + c[m-1] x^(m-1) */
  function Prefix(c: seq<int>, x: int, m: nat): int
    requires m <= |c|
  {
    if m == 0 then 0 else Prefix(c, x, m - 1) + c[m - 1] * Pow(x, m - 1)
  }

  /** An inner polynomial without its free term: c[base+1] x + ... + c[base+n] x^n. */
  function Inner(c: seq<int>, x: int, base: nat, n: nat): int
    requires n == 0 || base + n < |c|
  {
    if n == 0 then 0 else Inner(c, x, base, n - 1) + c[base + n] * Pow(x, n)
  }

  /** The inner polynomials 1 .. q, each times its power of high degree. */
  function HighSum(c: seq<int>, x: int, h: nat, q: nat): int
    requires h > 0 && q * h + h - 1 < |c|
    decreases q
  {
    if q == 0 then 0 else Below(q, h); HighSum(c, x, h, q - 1) + Inner(c, x, q * h, h - 1) * Pow(x, q * h)
  }

  lemma Below(q: nat, h: nat)
    requires q > 0
    ensures (q - 1) * h + h == q * h && (q - 1) * h >= 0
  {
  }

  /** The free terms of the inner polynomials 1 .. q. */
  function FreeSum(c: seq<int>, x: int, h: nat, q: nat): int
    requires q * h < |c|
    decreases q
  {
    if q == 0 then 0 else Below(q, h); FreeSum(c, x, h, q - 1) + c[q * h] * Pow(x, q * h)
  }

  lemma {:induction false} PrefixIsEval(c: seq<int>, x: int, m: nat)
    requires m <= |c|
    ensures Prefix(c, x, m) == Eval(c[..m], x)
  {
    if m == 0 {
    } else {
      PrefixIsEval(c, x, m - 1);
      assert c[..m] == c[..m - 1] + [c[m - 1]];
      EvalAppend(c[..m - 1], c[m - 1], x);
    }
  }

  lemma {:induction false} EvalAppend(c: seq<int>, a: int, x: int)
    ensures Eval(c + [a], x) == Eval(c, x) + a * Pow(x, |c|)
  {
    if c == [] {
      assert [a][1..] == [];
    } else {
      EvalAppend(c[1..], a, x);
      assert (c + [a])[1..] == c[1..] + [a];
      assert x * (a * Pow(x, |c| - 1)) == a * Pow(x, |c|);
    }
  }

  lemma TermTimes(s: int, a: int, y: int, z: int)
    ensures (s + a * y) * z == s * z + a * (z * y)
  {
  }

  /** A block of n+1 coefficients from base on is its free term and its inner polynomial, times the
      power of the base. */
  lemma {:induction false} Block(c: seq<int>, x: int, base: nat, n: nat)
    requires base + n < |c|
    ensures Prefix(c, x, base + n + 1) ==
            Prefix(c, x, base) + c[base] * Pow(x, base) + Inner(c, x, base, n) * Pow(x, base)
  {
    if n > 0 {
      Block(c, x, base, n - 1);
      PowAdd(x, base, n);
      TermTimes(Inner(c, x, base, n - 1), c[base + n], Pow(x, n), Pow(x, base));
    }
  }

  /** Full blocks of length h. */
  lemma {:induction false} Blocks(c: seq<int>, x: int, h: nat, q: nat)
    requires h > 0 && q * h + h - 1 < |c|
    ensures Prefix(c, x, q * h + h) ==
            HighSum(c, x, h, q) + Inner(c, x, 0, h - 1) + FreeSum(c, x, h, q) + c[0]
    decreases q
  {
    Block(c, x, q * h, h - 1);
    if q > 0 {
      Below(q, h);
      Blocks(c, x, h, q - 1);
    }
  }

  /** The whole polynomial, split as Paterson-Stockmeyer evaluates it: degree = k*h + r, k >= 1. */
  lemma SplitSum(c: seq<int>, x: int, h: nat, k: nat, r: nat)
    requires h > 0 && k > 0 && r < h && |c| == k * h + r + 1 && (k - 1) * h + h - 1 < |c|
    ensures Eval(c, x) == HighSum(c, x, h, k - 1) + Inner(c, x, k * h, r) * Pow(x, k * h)
                          + Inner(c, x, 0, h - 1) + FreeSum(c, x, h, k) + c[0]
  {
    Below(k, h);
    Blocks(c, x, h, k - 1);
    Block(c, x, k * h, r);
    PrefixIsEval(c, x, |c|);
    assert c[..|c|] == c;
  }
}
