/** Polynomials over the prime field of the plain modulus (interpolate.cpp): products of monomials and
    Newton interpolation, on coefficient vectors rewritten in place. */
module Interpolate {
  import opened Exceptions
  import opened ModArith

  /** Value of a coefficient vector, lowest degree first, over the integers; its residue mod p is the
      value of the polynomial over the field. */
  function Eval(c: seq<int>, x: int): int {
    if c == [] then 0 else c[0] + x * Eval(c[1..], x)
  }

  /** (x - r1) * ... * (x - rn) */
  function RootProduct(roots: seq<int>, x: int): int {
    if roots == [] then 1 else (x - roots[0]) * RootProduct(roots[1..], x)
  }

  ghost predicate Felts(s: seq<int>, p: int) {
    forall i :: 0 <= i < |s| ==> 0 <= s[i] < p
  }

  // The modular operations of the library, on reduced operands.

  function AddMod(a: int, b: int, p: int): int requires p > 0 { (a + b) % p }
  function SubMod(a: int, b: int, p: int): int requires p > 0 { (a - b) % p }
  function MulMod(a: int, b: int, p: int): int requires p > 0 { (a * b) % p }
  function MulAddMod(a: int, b: int, c: int, p: int): int requires p > 0 { (a * b + c) % p }
  function NegMod(a: int, p: int): int requires p > 0 { (-a) % p }
  function PowMod(a: int, e: nat, p: int): int requires p > 0 { Pow(a, e) % p }

  class FEltPolyn {
    var coeffs: seq<int>

    constructor (c: seq<int>)
      ensures coeffs == c
    {
      coeffs := c;
    }
  }

  /** The coefficients of (x - a) times the polynomial c, below a coefficient `carry`. */
  function TimesMonomial(c: seq<int>, a: int, carry: int, p: int): (r: seq<int>)
    requires p > 0
    ensures |r| == |c| + 1
  {
    if c == [] then [MulAddMod(0, NegMod(a, p), carry, p)]
    else [MulAddMod(c[0], NegMod(a, p), carry, p)] + TimesMonomial(c[1..], a, c[0], p)
  }

  lemma {:induction false} TimesMonomialAt(c: seq<int>, a: int, carry: int, p: int, i: nat)
    requires p > 0 && i <= |c|
    ensures TimesMonomial(c, a, carry, p)[i] ==
            MulAddMod(if i < |c| then c[i] else 0, NegMod(a, p), if i == 0 then carry else c[i - 1], p)
  {
    if i > 0 {
      TimesMonomialAt(c[1..], a, c[0], p, i - 1);
    }
  }

  lemma MulAddCong(c: int, a: int, carry: int, p: int)
    requires p > 0
    ensures Cong(MulAddMod(c, NegMod(a, p), carry, p), c * -a + carry, p)
  {
    CongMod(-a, p);
    CongScale(NegMod(a, p), -a, c, p);
    CongAdd(c * NegMod(a, p), c * -a, carry, carry, p);
    CongMod(c * NegMod(a, p) + carry, p);
  }

  lemma MonomialAlgebra(c: int, a: int, carry: int, x: int, t: int)
    ensures (c * -a + carry) + x * (c + (x - a) * t) == carry + (x - a) * (c + x * t)
  {
    assert x * ((x - a) * t) == (x - a) * (x * t);
  }

  /** Multiplying by the monomial multiplies the value by x - a. */
  lemma {:induction false} TimesMonomialEval(c: seq<int>, a: int, carry: int, p: int, x: int)
    requires p > 0
    ensures Cong(Eval(TimesMonomial(c, a, carry, p), x), carry + (x - a) * Eval(c, x), p)
  {
    var r := TimesMonomial(c, a, carry, p);
    if c == [] {
      MulAddCong(0, a, carry, p);
      assert r[1..] == [];
    } else {
      var t := Eval(c[1..], x);
      TimesMonomialEval(c[1..], a, c[0], p, x);
      assert r[1..] == TimesMonomial(c[1..], a, c[0], p);
      MulAddCong(c[0], a, carry, p);
      CongScale(Eval(r[1..], x), c[0] + (x - a) * t, x, p);
      CongAdd(r[0], c[0] * -a + carry, x * Eval(r[1..], x), x * (c[0] + (x - a) * t), p);
      MonomialAlgebra(c[0], a, carry, x, t);
    }
  }

  /** Rewrites the coefficients from right to left, so that no copy is needed. */
  method MulMonicMonomialInplace(polyn: FEltPolyn, a: int, p: int)
    requires p > 0 && |polyn.coeffs| > 0
    modifies polyn
    ensures polyn.coeffs == TimesMonomial(old(polyn.coeffs), a, 0, p)
  {
    ghost var c := polyn.coeffs;
    polyn.coeffs := polyn.coeffs + [0];
    var negA := NegMod(a, p);
    var i := |polyn.coeffs| - 1;
    while i > 0
      invariant 0 <= i <= |c| && |polyn.coeffs| == |c| + 1
      invariant forall j :: 0 <= j <= i ==> polyn.coeffs[j] == (c + [0])[j]
      invariant forall j :: i < j <= |c| ==> polyn.coeffs[j] == TimesMonomial(c, a, 0, p)[j]
    {
      TimesMonomialAt(c, a, 0, p, i);
      polyn.coeffs := polyn.coeffs[i := MulAddMod(polyn.coeffs[i], negA, polyn.coeffs[i - 1], p)];
      i := i - 1;
    }
    TimesMonomialAt(c, a, 0, p, 0);
    polyn.coeffs := polyn.coeffs[0 := MulMod(polyn.coeffs[0], negA, p)];
  }

  lemma {:induction false} TimesMonomialFelts(c: seq<int>, a: int, carry: int, p: int)
    requires p > 0
    ensures Felts(TimesMonomial(c, a, carry, p), p)
  {
    if c != [] {
      TimesMonomialFelts(c[1..], a, c[0], p);
    }
  }

  // ---------- The polynomial with given roots ----------

  function Monic(roots: seq<int>, p: int): (c: seq<int>)
    requires p > 0
    ensures |c| == |roots| + 1
  {
    if roots == [] then [1]
    else TimesMonomial(Monic(roots[..|roots| - 1], p), roots[|roots| - 1], 0, p)
  }

  lemma {:induction false} RootProductAppend(roots: seq<int>, r: int, x: int)
    ensures RootProduct(roots + [r], x) == RootProduct(roots, x) * (x - r)
  {
    if roots != [] {
      RootProductAppend(roots[1..], r, x);
      assert (roots + [r])[1..] == roots[1..] + [r];
      assert (x - roots[0]) * (RootProduct(roots[1..], x) * (x - r)) == RootProduct(roots, x) * (x - r);
    }
  }

  lemma {:induction false} MonicEval(roots: seq<int>, p: int, x: int)
    requires p > 0
    ensures Cong(Eval(Monic(roots, p), x), RootProduct(roots, x), p)
  {
    if roots != [] {
      var n := |roots| - 1;
      MonicEval(roots[..n], p, x);
      TimesMonomialEval(Monic(roots[..n], p), roots[n], 0, p, x);
      CongScale(Eval(Monic(roots[..n], p), x), RootProduct(roots[..n], x), x - roots[n], p);
      assert roots == roots[..n] + [roots[n]];
      RootProductAppend(roots[..n], roots[n], x);
    }
  }

  /** A product of differences vanishes mod a prime exactly at the roots. */
  lemma {:induction false} RootProductZero(roots: seq<int>, p: int, x: int)
    requires Prime(p) && 0 <= x < p && Felts(roots, p)
    ensures RootProduct(roots, x) % p == 0 <==> x in roots
  {
    if roots == [] {
      DivModUnique(1, 0, 1, p);
    } else {
      RootProductZero(roots[1..], p, x);
      Euclid(x - roots[0], RootProduct(roots[1..], x), p);
      CongZero(x, roots[0], p);
      if (x - roots[0]) % p == 0 {
        CongSmall(x, roots[0], p);
      }
      assert x - x == 0;
    }
  }

  /** The matching polynomial of a bin is monic, reduced, and vanishes at a felt exactly when the felt
      is in the bin. */
  lemma MonicVanishesIff(roots: seq<int>, p: int, x: int)
    requires Prime(p) && 0 <= x < p && Felts(roots, p)
    ensures Eval(Monic(roots, p), x) % p == 0 <==> x in roots
  {
    MonicEval(roots, p, x);
    RootProductZero(roots, p, x);
  }

  lemma {:induction false} MonicShape(roots: seq<int>, p: int)
    requires p > 1
    ensures Felts(Monic(roots, p), p) && Monic(roots, p)[|roots|] == 1
  {
    if roots != [] {
      var n := |roots| - 1;
      MonicShape(roots[..n], p);
      TimesMonomialFelts(Monic(roots[..n], p), roots[n], 0, p);
      TimesMonomialAt(Monic(roots[..n], p), roots[n], 0, p, n + 1);
      DivModUnique(1, 0, 1, p);
    }
  }

  method PolynWithRoots(roots: seq<int>, p: nat) returns (r: Result<FEltPolyn>)
    ensures r.Ok? <==> p != 0
    ensures r.Ok? || r.InvalidArgument?
    ensures r.Ok? ==> fresh(r.value) && r.value.coeffs == Monic(roots, p)
  {
    if p == 0 {
      return InvalidArgument;
    }
    var polyn := new FEltPolyn([1]);
    for i := 0 to |roots|
      invariant fresh(polyn) && polyn.coeffs == Monic(roots[..i], p)
    {
      assert roots[..i + 1][..i] == roots[..i];
      MulMonicMonomialInplace(polyn, roots[i], p);
    }
    assert roots[..|roots|] == roots;
    return Ok(polyn);
  }

  // ---------- Newton interpolation ----------

  /** A modulus carries the result of the library's primality test. */
  datatype Modulus = Modulus(value: nat, isPrime: bool) {
    ghost predicate Valid() { isPrime <==> Prime(value) }
  }

  function Inverse(a: int, p: int): int
    requires p >= 2
  {
    PowMod(a, p - 2, p)
  }

  /** The divided difference [y_i, ..., y_(i+j)]. */
  function DD(xs: seq<int>, ys: seq<int>, i: nat, j: nat, p: int): int
    requires p >= 2 && |xs| == |ys| && i + j < |xs|
    decreases j
  {
    if j == 0 then ys[i]
    else MulMod(SubMod(DD(xs, ys, i + 1, j - 1, p), DD(xs, ys, i, j - 1, p), p),
                Inverse(SubMod(xs[i + j], xs[i], p), p), p)
  }

  /** (x - x_i) ... (x - x_(i+j-1)) */
  function W(xs: seq<int>, i: nat, j: nat, x: int): int
    requires i + j <= |xs|
  {
    if j == 0 then 1 else W(xs, i, j - 1, x) * (x - xs[i + j - 1])
  }

  /** The Newton form over the points i .. i+j. */
  function Newton(xs: seq<int>, ys: seq<int>, i: nat, j: nat, p: int, x: int): int
    requires p >= 2 && |xs| == |ys| && i + j < |xs|
    decreases j
  {
    if j == 0 then ys[i]
    else Newton(xs, ys, i, j - 1, p, x) + DD(xs, ys, i, j, p) * W(xs, i, j, x)
  }

  lemma {:induction false} WFromLeft(xs: seq<int>, i: nat, j: nat, x: int)
    requires i + j <= |xs| && j > 0
    ensures W(xs, i, j, x) == (x - xs[i]) * W(xs, i + 1, j - 1, x)
  {
    if j > 1 {
      WFromLeft(xs, i, j - 1, x);
    }
  }

  lemma DivisionCong(num: int, den: int, p: int)
    requires Prime(p) && den % p != 0
    ensures Cong(MulMod(num % p, Inverse(den % p, p), p) * den, num, p)
  {
    hide Cong, Pow, Inverse, PowMod;
    InverseCong(den, p);
    var inv, q := Inverse(den % p, p), Pow(den, p - 2);
    CongMod(num, p);
    CongMul(num % p, num, inv, q, p);
    CongMod((num % p) * inv, p);
    CongTrans(MulMod(num % p, inv, p), (num % p) * inv, num * q, p);
    CongScale(MulMod(num % p, inv, p), num * q, den, p);
    FermatInverse(den, p);
    CongScale(den * q, 1, num, p);
    Reassociate(num, q, den);
    CongTrans(MulMod(num % p, inv, p) * den, num * q * den, num, p);
  }

  /** The defining equation of a divided difference e of d0 and d1, without the division. */
  lemma Divided(xi: int, xj: int, d0: int, d1: int, e: int, p: int)
    requires Prime(p) && 0 <= xi < p && 0 <= xj < p && xi != xj
    requires e == MulMod(SubMod(d1, d0, p), Inverse(SubMod(xj, xi, p), p), p)
    ensures Cong(e * (xj - xi), d1 - d0, p)
  {
    hide Inverse, PowMod;
    if (xj - xi) % p == 0 {
      CongZero(xj, xi, p);
      CongSmall(xj, xi, p);
    }
    DivisionCong(d1 - d0, xj - xi, p);
  }

  lemma InverseCong(den: int, p: int)
    requires p >= 2
    ensures Cong(Inverse(den % p, p), Pow(den, p - 2), p)
  {
    CongMod(den, p);
    CongPow(den % p, den, p - 2, p);
    CongMod(Pow(den % p, p - 2), p);
  }

  lemma Reassociate(a: int, b: int, c: int)
    ensures a * b * c == a * (c * b) == a * c * b
  {
  }

  lemma DifferenceAlgebra(d0: int, d1: int, e: int, w: int, x: int, xi: int, xj: int)
    ensures e * (xj - xi) * w + d1 * (w * (x - xj)) - e * ((x - xi) * w) == (d1 - e) * (w * (x - xj))
  {
    calc {
      e * (xj - xi) * w - e * ((x - xi) * w);
      e * w * (xj - xi) - e * w * (x - xi);
      e * w * (xj - x);
      -(e * (w * (x - xj)));
    }
  }

  /** Neighbouring Newton forms differ by a multiple of the points they share. */
  lemma {:induction false} NewtonDifference(xs: seq<int>, ys: seq<int>, i: nat, j: nat, p: int, x: int)
    requires Prime(p) && |xs| == |ys| && i + 1 + j < |xs| && Felts(xs, p) && Distinct(xs)
    ensures Cong(Newton(xs, ys, i + 1, j, p, x) - Newton(xs, ys, i, j, p, x),
                 (DD(xs, ys, i + 1, j, p) - DD(xs, ys, i, j, p)) * W(xs, i + 1, j, x), p)
    decreases j
  {
    if j > 0 {
      NewtonDifference(xs, ys, i, j - 1, p, x);
      var e, d1, w := DD(xs, ys, i, j, p), DD(xs, ys, i + 1, j, p), W(xs, i + 1, j - 1, x);
      Divided(xs[i], xs[i + j], DD(xs, ys, i, j - 1, p), DD(xs, ys, i + 1, j - 1, p), e, p);
      var diff := DD(xs, ys, i + 1, j - 1, p) - DD(xs, ys, i, j - 1, p);
      CongScale(e * (xs[i + j] - xs[i]), diff, w, p);
      var tail := d1 * (w * (x - xs[i + j])) - e * ((x - xs[i]) * w);
      CongAdd(Newton(xs, ys, i + 1, j - 1, p, x) - Newton(xs, ys, i, j - 1, p, x),
              e * (xs[i + j] - xs[i]) * w, tail, tail, p);
      WFromLeft(xs, i, j, x);
      DifferenceAlgebra(0, d1, e, w, x, xs[i], xs[i + j]);
    }
  }

  lemma {:induction false} WVanishes(xs: seq<int>, i: nat, j: nat, m: nat)
    requires i + j <= |xs| && i <= m < i + j
    ensures W(xs, i, j, xs[m]) == 0
  {
    if m < i + j - 1 {
      WVanishes(xs, i, j - 1, m);
    }
  }

  /** The Newton form over distinct points takes every value at its point. */
  lemma {:induction false} NewtonInterpolates(xs: seq<int>, ys: seq<int>, i: nat, j: nat, p: int, m: nat)
    requires Prime(p) && |xs| == |ys| && i + j < |xs| && Felts(xs, p) && Distinct(xs) && i <= m <= i + j
    ensures Cong(Newton(xs, ys, i, j, p, xs[m]), ys[m], p)
    decreases j
  {
    if j == 0 {
    } else if m < i + j {
      NewtonInterpolates(xs, ys, i, j - 1, p, m);
      WVanishes(xs, i, j, m);
    } else {
      NewtonInterpolates(xs, ys, i + 1, j - 1, p, m);
      NewtonAtLast(xs, ys, i, j, p);
      CongTrans(Newton(xs, ys, i, j, p, xs[m]), Newton(xs, ys, i + 1, j - 1, p, xs[m]), ys[m], p);
    }
  }

  /** At its last point the Newton form agrees with the one that starts one point later. */
  lemma NewtonAtLast(xs: seq<int>, ys: seq<int>, i: nat, j: nat, p: int)
    requires Prime(p) && |xs| == |ys| && i + j < |xs| && j > 0 && Felts(xs, p) && Distinct(xs)
    ensures Cong(Newton(xs, ys, i, j, p, xs[i + j]), Newton(xs, ys, i + 1, j - 1, p, xs[i + j]), p)
  {
    hide Cong, DD, W;
    var x := xs[i + j];
    NewtonDifference(xs, ys, i, j - 1, p, x);
    var e, w := DD(xs, ys, i, j, p), W(xs, i + 1, j - 1, x);
    DDUnfold(xs, ys, i, j, p);
    Divided(xs[i], x, DD(xs, ys, i, j - 1, p), DD(xs, ys, i + 1, j - 1, p), e, p);
    var diff := DD(xs, ys, i + 1, j - 1, p) - DD(xs, ys, i, j - 1, p);
    CongScale(e * (x - xs[i]), diff, w, p);
    WFromLeft(xs, i, j, x);
    Reassociate(e, w, x - xs[i]);
    var a, b := Newton(xs, ys, i, j - 1, p, x), Newton(xs, ys, i + 1, j - 1, p, x);
    CongSym(b - a, diff * w, p);
    CongTrans(e * (x - xs[i]) * w, diff * w, b - a, p);
    CongShift(e * W(xs, i, j, x), b - a, a, p);
  }

  /** Row i of the table holds the divided differences that start at point i. */
  ghost predicate RowOk(xs: seq<int>, ys: seq<int>, p: int, row: seq<int>, i: nat, len: nat)
    requires p >= 2 && |xs| == |ys|
  {
    |row| == len && i + len <= |xs| && forall k :: 0 <= k < len ==> row[k] == DD(xs, ys, i, k, p)
  }

  lemma RowAppend(xs: seq<int>, ys: seq<int>, p: int, row: seq<int>, i: nat, j: nat)
    requires p >= 2 && |xs| == |ys| && i + j < |xs| && RowOk(xs, ys, p, row, i, j)
    ensures RowOk(xs, ys, p, row + [DD(xs, ys, i, j, p)], i, j + 1)
  {
  }

  function RowLength(n: nat, i: nat, j: nat): nat
    requires i < n
  {
    if j < n - i then j else n - i
  }

  lemma SubModZero(a: int, b: int, p: int)
    requires p > 0 && 0 <= a < p && 0 <= b < p
    ensures SubMod(a, b, p) == 0 <==> a == b
  {
    CongZero(a, b, p);
    if SubMod(a, b, p) == 0 {
      CongSmall(a, b, p);
    } else if a == b {
      DivModUnique(0, 0, 0, p);
    }
  }

  /** The loop over the columns of the table; stops at a repeated point. */
  method DividedDifferences(xs: seq<int>, ys: seq<int>, p: int) returns (ok: bool, dd: seq<seq<int>>)
    requires p >= 2 && |xs| == |ys| && |xs| > 0 && Felts(xs, p)
    ensures ok <==> Distinct(xs)
    ensures ok ==> |dd| == |xs| && forall i :: 0 <= i < |xs| ==> RowOk(xs, ys, p, dd[i], i, |xs| - i)
  {
    hide DD, SubMod, MulMod, Inverse;
    var n := |xs|;
    dd := seq(n, i requires 0 <= i < n => [ys[i]]);
    FirstColumn(xs, ys, p);
    for j := 1 to n
      invariant |dd| == n
      invariant forall i :: 0 <= i < n ==> RowOk(xs, ys, p, dd[i], i, RowLength(n, i, j))
      invariant forall i, k :: 0 <= i < k < n && k - i < j ==> xs[i] != xs[k]
    {
      for i := 0 to n - j
        invariant |dd| == n
        invariant forall k :: 0 <= k < i ==> RowOk(xs, ys, p, dd[k], k, RowLength(n, k, j + 1))
        invariant forall k :: i <= k < n ==> RowOk(xs, ys, p, dd[k], k, RowLength(n, k, j))
        invariant forall k :: 0 <= k < i ==> xs[k] != xs[k + j]
      {
        assert RowOk(xs, ys, p, dd[i + 1], i + 1, j) && RowOk(xs, ys, p, dd[i], i, j);
        var numerator := SubMod(dd[i + 1][j - 1], dd[i][j - 1], p);
        var denominator := SubMod(xs[i + j], xs[i], p);
        SubModZero(xs[i + j], xs[i], p);
        if denominator == 0 {
          return false, dd;
        }
        DDUnfold(xs, ys, i, j, p);
        RowAppend(xs, ys, p, dd[i], i, j);
        dd := dd[i := dd[i] + [MulMod(numerator, Inverse(denominator, p), p)]];
      }
    }
    ok := true;
  }

  lemma FirstColumn(xs: seq<int>, ys: seq<int>, p: int)
    requires p >= 2 && |xs| == |ys|
    ensures forall i :: 0 <= i < |xs| ==> RowOk(xs, ys, p, [ys[i]], i, 1)
  {
  }

  lemma DDUnfold(xs: seq<int>, ys: seq<int>, i: nat, j: nat, p: int)
    requires p >= 2 && |xs| == |ys| && i + j < |xs| && j > 0
    ensures DD(xs, ys, i, j, p) ==
            MulMod(SubMod(DD(xs, ys, i + 1, j - 1, p), DD(xs, ys, i, j - 1, p), p),
                   Inverse(SubMod(xs[i + j], xs[i], p), p), p)
  {
  }

  lemma {:induction false} EvalZeros(c: seq<int>, x: int)
    requires forall i :: 0 <= i < |c| ==> c[i] == 0
    ensures Eval(c, x) == 0
  {
    if c != [] {
      EvalZeros(c[1..], x);
    }
  }

  /** Horner's method from term i down: what is still to be multiplied and added. */
  ghost predicate HornerInv(xs: seq<int>, ys: seq<int>, p: int, c: seq<int>, i: nat, x: int)
    requires p >= 2 && |xs| == |ys| && i < |xs|
  {
    Cong(Newton(xs, ys, 0, i, p, x) + W(xs, 0, i, x) * Eval(c, x), Newton(xs, ys, 0, |xs| - 1, p, x), p)
  }

  ghost predicate HornerAll(xs: seq<int>, ys: seq<int>, p: int, c: seq<int>, i: nat)
    requires p >= 2 && |xs| == |ys| && i < |xs|
  {
    forall x :: HornerInv(xs, ys, p, c, i, x)
  }

  /** c is the Newton form through all points, as a polynomial function. */
  ghost predicate IsNewton(xs: seq<int>, ys: seq<int>, p: int, c: seq<int>)
    requires p >= 2 && |xs| == |ys| && |xs| > 0
  {
    forall x :: Cong(Eval(c, x), Newton(xs, ys, 0, |xs| - 1, p, x), p)
  }

  lemma EvalFirst(c: seq<int>, v: int, x: int)
    requires c != []
    ensures Eval(c[0 := v], x) == v - c[0] + Eval(c, x)
  {
    assert c[0 := v][1..] == c[1..];
  }

  lemma HornerAlgebra(n: int, d: int, w: int, f: int, e: int)
    ensures (n + d * (w * f)) + (w * f) * e == n + w * (f * (d + e))
  {
    calc {
      (w * f) * d + (w * f) * e;
      (w * f) * (d + e);
      w * (f * (d + e));
    }
  }

  lemma AddedTerm(c: seq<int>, d: int, p: int, x: int)
    requires p > 0 && c != []
    ensures Cong(Eval(c[0 := AddMod(c[0], d, p)], x), d + Eval(c, x), p)
  {
    EvalFirst(c, AddMod(c[0], d, p), x);
    CongMod(c[0] + d, p);
    var rest := Eval(c, x) - c[0];
    CongAdd(AddMod(c[0], d, p), c[0] + d, rest, rest, p);
  }

  lemma HornerStep(xs: seq<int>, ys: seq<int>, p: int, c: seq<int>, i: nat, x: int)
    requires p >= 2 && |xs| == |ys| && 0 < i < |xs| && c != [] && HornerInv(xs, ys, p, c, i, x)
    ensures HornerInv(xs, ys, p, TimesMonomial(c[0 := AddMod(c[0], DD(xs, ys, 0, i, p), p)], xs[i - 1], 0, p), i - 1, x)
  {
    hide Cong, AddMod, DD, TimesMonomial, Eval;
    var d := DD(xs, ys, 0, i, p);
    var c1 := c[0 := AddMod(c[0], d, p)];
    var c2 := TimesMonomial(c1, xs[i - 1], 0, p);
    var f, w, n, e := x - xs[i - 1], W(xs, 0, i - 1, x), Newton(xs, ys, 0, i - 1, p, x), Eval(c, x);
    AddedTerm(c, d, p, x);
    TimesMonomialEval(c1, xs[i - 1], 0, p, x);
    CongScale(Eval(c1, x), d + e, f, p);
    CongTrans(Eval(c2, x), f * Eval(c1, x), f * (d + e), p);
    CongScale(Eval(c2, x), f * (d + e), w, p);
    CongShift(w * Eval(c2, x), w * (f * (d + e)), n, p);
    HornerAlgebra(n, d, w, f, e);
    CongTrans(n + w * Eval(c2, x), n + w * (f * (d + e)), Newton(xs, ys, 0, |xs| - 1, p, x), p);
  }

  lemma HornerStepAll(xs: seq<int>, ys: seq<int>, p: int, c: seq<int>, i: nat)
    requires p >= 2 && |xs| == |ys| && 0 < i < |xs| && c != [] && HornerAll(xs, ys, p, c, i)
    ensures HornerAll(xs, ys, p, TimesMonomial(c[0 := AddMod(c[0], DD(xs, ys, 0, i, p), p)], xs[i - 1], 0, p), i - 1)
  {
    hide HornerInv;
    var j, c2 := i - 1, TimesMonomial(c[0 := AddMod(c[0], DD(xs, ys, 0, i, p), p)], xs[i - 1], 0, p);
    forall x ensures HornerInv(xs, ys, p, c2, j, x) {
      HornerStep(xs, ys, p, c, i, x);
    }
  }

  lemma HornerEnd(xs: seq<int>, ys: seq<int>, p: int, c: seq<int>)
    requires p >= 2 && |xs| == |ys| && |xs| > 0 && c != [] && HornerAll(xs, ys, p, c, 0)
    ensures IsNewton(xs, ys, p, c[0 := AddMod(c[0], DD(xs, ys, 0, 0, p), p)])
  {
    hide AddMod, Eval;
    var c1 := c[0 := AddMod(c[0], DD(xs, ys, 0, 0, p), p)];
    forall x ensures Cong(Eval(c1, x), Newton(xs, ys, 0, |xs| - 1, p, x), p) {
      assert HornerInv(xs, ys, p, c, 0, x);
      AddedTerm(c, ys[0], p, x);
    }
  }

  lemma FirstFelt(c: seq<int>, d: int, p: int)
    requires p > 0 && c != [] && Felts(c, p)
    ensures Felts(c[0 := AddMod(c[0], d, p)], p)
  {
  }

  method Horner(xs: seq<int>, ghost ys: seq<int>, row: seq<int>, p: int) returns (polyn: FEltPolyn)
    requires p >= 2 && |xs| == |ys| && |xs| > 0 && RowOk(xs, ys, p, row, 0, |xs|)
    ensures fresh(polyn) && |polyn.coeffs| == |xs| && Felts(polyn.coeffs, p)
    ensures IsNewton(xs, ys, p, polyn.coeffs)
  {
    hide AddMod, DD, TimesMonomial, HornerAll, IsNewton, Felts;
    polyn := new FEltPolyn([0]);
    HornerStart(xs, ys, p);
    var i := |xs| - 1;
    while i > 0
      invariant fresh(polyn) && 0 <= i < |xs| && |polyn.coeffs| == |xs| - i
      invariant Felts(polyn.coeffs, p)
      invariant HornerAll(xs, ys, p, polyn.coeffs, i)
    {
      ghost var c := polyn.coeffs;
      polyn.coeffs := polyn.coeffs[0 := AddMod(polyn.coeffs[0], row[i], p)];
      MulMonicMonomialInplace(polyn, xs[i - 1], p);
      TimesMonomialFelts(c[0 := AddMod(c[0], row[i], p)], xs[i - 1], 0, p);
      HornerStepAll(xs, ys, p, c, i);
      i := i - 1;
    }
    FirstFelt(polyn.coeffs, row[0], p);
    HornerEnd(xs, ys, p, polyn.coeffs);
    polyn.coeffs := polyn.coeffs[0 := AddMod(polyn.coeffs[0], row[0], p)];
  }

  lemma HornerStart(xs: seq<int>, ys: seq<int>, p: int)
    requires p >= 2 && |xs| == |ys| && |xs| > 0
    ensures Felts([0], p) && HornerAll(xs, ys, p, [0], |xs| - 1)
  {
    hide W, Newton, DD;
    var i := |xs| - 1;
    forall x ensures HornerInv(xs, ys, p, [0], i, x) {
      EvalZeros([0], x);
    }
  }

  ghost predicate AllZeros(s: seq<int>) {
    forall i :: 0 <= i < |s| ==> s[i] == 0
  }

  /** The polynomial c takes each value at its point. */
  ghost predicate Interpolates(c: seq<int>, xs: seq<int>, ys: seq<int>, p: int)
    requires p > 0 && |xs| == |ys|
  {
    forall i :: 0 <= i < |xs| ==> Eval(c, xs[i]) % p == ys[i]
  }

  method NewtonInterpolatePolyn(points: seq<int>, values: seq<int>, mod: Modulus) returns (r: Result<FEltPolyn>)
    requires mod.Valid() && Felts(points, mod.value) && Felts(values, mod.value)
    ensures r.InvalidArgument? <==> |points| != |values| || !mod.isPrime
    ensures r.LogicError? <==> |points| == |values| && mod.isPrime && !AllZeros(values) && !Distinct(points)
    ensures !r.RuntimeError?
    ensures r.Ok? ==>
      && fresh(r.value) && |r.value.coeffs| == (if |points| == 0 then 1 else |points|)
      && Felts(r.value.coeffs, mod.value) && Interpolates(r.value.coeffs, points, values, mod.value)
  {
    hide Newton, DD, Eval, RowOk;
    if |points| != |values| {
      return InvalidArgument;
    }
    if !mod.isPrime {
      return InvalidArgument;
    }
    var n, p := |points|, mod.value;
    if forall i :: 0 <= i < n ==> values[i] == 0 {
      var zeros := new FEltPolyn(seq(if n == 0 then 1 else n, _ => 0));
      forall i | 0 <= i < n ensures Eval(zeros.coeffs, points[i]) % p == values[i] {
        EvalZeros(zeros.coeffs, points[i]);
        DivModUnique(0, 0, 0, p);
      }
      return Ok(zeros);
    }
    var ok, dd := DividedDifferences(points, values, p);
    if !ok {
      return LogicError;
    }
    var polyn := Horner(points, values, dd[0], p);
    forall i | 0 <= i < n ensures Eval(polyn.coeffs, points[i]) % p == values[i] {
      NewtonInterpolates(points, values, 0, n - 1, p, i);
      DivModUnique(values[i], 0, values[i], p);
    }
    return Ok(polyn);
  }
}
