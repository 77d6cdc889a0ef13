/** `wNAF_recode` of eccp2_core.c: the width-w non-adjacent form of a 64-bit scalar. */
module Wnaf {
  import opened ModArith
  import opened BinarySums
  import opened Words

  /** What the digits must look like: odd and small, or zero. */
  ghost predicate IsDigit(d: int, w: nat)
    requires w >= 2
  {
    d != 0 ==> d % 2 == 1 && d < Pow2(w - 1) && -d < Pow2(w - 1)
  }

  ghost predicate Digits(s: seq<int>, w: nat)
    requires w >= 2
  {
    forall t :: 0 <= t < |s| ==> IsDigit(s[t], w)
  }

  /** Any two non-zero digits are at least w places apart: at most one in w consecutive entries. */
  ghost predicate Sparse(s: seq<int>, w: nat) {
    forall t, u :: 0 <= t < u < |s| && s[t] != 0 && s[u] != 0 ==> u - t >= w
  }

  /** The next non-zero digit may go to place `index`. */
  ghost predicate Clear(s: seq<int>, w: nat, index: nat) {
    forall t :: 0 <= t < |s| && s[t] != 0 ==> t + w <= index
  }

  ghost predicate ZeroFrom(s: seq<int>, index: nat) {
    forall t :: index <= t < |s| ==> s[t] == 0
  }

  /** The digits so far and what is left of the scalar. */
  ghost predicate Inv(scalar: int, k: int, s: seq<int>, w: nat, index: nat)
    requires w >= 2
  {
    && |s| == 65 && index <= 65 && ZeroFrom(s, index)
    && 0 <= k && (if index <= 64 then k <= Pow2(64 - index) else k == 0)
    && Expansion(s, 0, index) + Pow2(index) * k == scalar
    && Digits(s, w) && Sparse(s, w) && (k != 0 ==> Clear(s, w, index))
  }

  lemma Start(scalar: int, s: seq<int>, w: nat)
    requires IsWord(scalar) && w >= 2 && |s| == 65 && ZeroFrom(s, 0)
    ensures Inv(scalar, scalar, s, w, 0)
  {
    WordIsPow2();
  }

  lemma Even(scalar: int, k: int, s: seq<int>, w: nat, index: nat)
    requires w >= 2 && Inv(scalar, k, s, w, index) && k != 0 && k % 2 == 0
    ensures index < 64 && s[index] == 0 && Inv(scalar, k / 2, s, w, index + 1)
  {
    hide Digits, Sparse;
    var h := k / 2;
    assert k == 2 * h;
    EvenBound(k, h, index);
    MulAssoc(2, Pow2(index), h);
    MulAssoc(Pow2(index), 2, h);
  }

  lemma EvenBound(k: int, h: int, index: nat)
    requires index <= 65 && 0 < k == 2 * h && if index <= 64 then k <= Pow2(64 - index) else k == 0
    ensures index < 64 && h <= Pow2(64 - (index + 1))
  {
    assert Pow2(0) == 1;
  }

  /** The digit taken for an odd k: its residue mod 2^w nearest to zero. */
  function Nearest(k: nat, w: nat): (d: int)
    requires w >= 1
  {
    var low := k % Pow2(w);
    if low > Pow2(w - 1) - 1 then low - Pow2(w) else low
  }

  /** k >> w, plus the carry of a negative digit. */
  function Rest(k: nat, w: nat): nat
    requires w >= 1
  {
    k / Pow2(w) + if Nearest(k, w) < 0 then 1 else 0
  }

  /** The same for k == pq + low, where p == 2h and h is even. */
  lemma NearestParts(k: nat, p: nat, h: nat, q: nat, low: nat, d: int, rest: int)
    requires p == 2 * h && h >= 2 && h % 2 == 0 && k == p * q + low && low < p && k % 2 == 1
    requires d == (if low > h - 1 then low - p else low) && rest == q + (if d < 0 then 1 else 0)
    ensures k == d + p * rest && d % 2 == 1 && d < h && -d < h && rest < k
  {
    ParityOfRemainder(k, p, h, q, low);
    assert p * (q + 1) == p * q + p;
    Larger(p, q);
  }

  lemma DivMod(k: nat, p: nat)
    requires p > 0
    ensures k == p * (k / p) + k % p && 0 <= k % p < p && 0 <= k / p
  {
  }

  lemma Parts(k: nat, w: nat, digit: int, rest: int)
    requires w >= 2
    requires digit == var low := k % Pow2(w); if low > Pow2(w - 1) - 1 then low - Pow2(w) else low
    requires rest == k / Pow2(w) + if digit < 0 then 1 else 0
    ensures digit == Nearest(k, w) && rest == Rest(k, w)
  {
  }

  lemma Halves(w: nat)
    requires w >= 2
    ensures Pow2(w) == 2 * Pow2(w - 1) && Pow2(w - 1) >= 2 && Pow2(w - 1) % 2 == 0
  {
    assert Pow2(w - 1) == 2 * Pow2(w - 2);
  }

  lemma OddParts(k: nat, w: nat)
    requires w >= 2 && k % 2 == 1
    ensures k == Nearest(k, w) + Pow2(w) * Rest(k, w)
    ensures IsDigit(Nearest(k, w), w) && Nearest(k, w) != 0 && Rest(k, w) < k
  {
    hide Pow2, Rest, Nearest;
    var p, h := Pow2(w), Pow2(w - 1);
    Halves(w);
    DivMod(k, p);
    var q, low := k / p, k % p;
    var d := if low > h - 1 then low - p else low;
    var rest := q + (if d < 0 then 1 else 0);
    NearestParts(k, p, h, q, low, d, rest);
    Parts(k, w, d, rest);
  }

  lemma Larger(p: int, q: int)
    requires p >= 4 && q >= 0
    ensures p * q >= 4 * q
  {
  }

  lemma ParityOfRemainder(k: int, p: int, h: int, q: int, low: int)
    requires p == 2 * h && k == p * q + low && k % 2 == 1
    ensures low % 2 == 1
  {
    MulAssoc(2, h, q);
    assert low == k - 2 * (h * q);
  }

  /** After an odd step of an exact power bound, the bound moves down w places; when fewer than w places are
      left the digit is the whole of k. */
  lemma RestBound(k: nat, w: nat, m: nat)
    requires w >= 2 && k % 2 == 1 && k <= Pow2(m)
    ensures if m >= w then Rest(k, w) <= Pow2(m - w) else Rest(k, w) == 0
  {
    if m >= w {
      Pow2Add(w, m - w);
      assert k < Pow2(m) by { assert Pow2(m) == 2 * Pow2(m - 1); }
      QuotientBelow(k, Pow2(w), Pow2(m - w));
    } else {
      Pow2Grows(m, w - 1);
      assert Pow2(w) == 2 * Pow2(w - 1);
      assert w - 1 >= 1 && Pow2(w - 1) == 2 * Pow2(w - 2);
      assert k < Pow2(w - 1);
      QuotientBelow(k, Pow2(w), 1);
      DivModUnique(k, 0, k, Pow2(w));
    }
  }

  lemma QuotientBelow(k: nat, p: nat, q: nat)
    requires p > 0 && k < p * q
    ensures k / p < q
  {
    var r := k / p;
    assert k == p * r + k % p;
    if r >= q {
      LargerBoth(p, q, r);
    }
  }

  lemma LargerBoth(p: int, q: int, r: int)
    requires p > 0 && q <= r
    ensures p * q <= p * r
  {
  }

  lemma {:induction false} Pow2Grows(m: nat, n: nat)
    requires m <= n
    ensures Pow2(m) <= Pow2(n)
  {
    if m < n {
      Pow2Grows(m, n - 1);
    }
  }

  lemma {:induction false} ZeroTail(s: seq<int>, i: nat, n: nat)
    requires i <= n <= |s| && ZeroFrom(s, i)
    ensures Expansion(s, 0, n) == Expansion(s, 0, i)
  {
    if i < n {
      ZeroTail(s, i, n - 1);
    }
  }

  lemma OddSum(scalar: int, k: nat, s: seq<int>, w: nat, index: nat, next: nat)
    requires w >= 2 && index < next <= |s| && index + w <= |s| + w && ZeroFrom(s, index) && k % 2 == 1
    requires Expansion(s, 0, index) + Pow2(index) * k == scalar
    requires next == index + w || Rest(k, w) == 0
    ensures var s' := s[index := Nearest(k, w)]; Expansion(s', 0, next) + Pow2(next) * Rest(k, w) == scalar
  {
    hide Nearest, Rest;
    var d, rest := Nearest(k, w), Rest(k, w);
    var s' := s[index := d];
    OddParts(k, w);
    ExpansionExtends(s, s', 0, index);
    ZeroTail(s', index + 1, next);
    Pow2Add(index, w);
    SplitProduct(Pow2(index), Pow2(w), d, rest);
    assert Expansion(s', 0, index + 1) == Expansion(s', 0, index) + Pow2(index) * d;
    assert Pow2(next) * rest == Pow2(index + w) * rest;
  }

  lemma SplitProduct(a: int, b: int, d: int, rest: int)
    ensures a * (d + b * rest) == a * d + (a * b) * rest
  {
    MulAssoc(a, b, rest);
  }

  lemma OddShape(s: seq<int>, w: nat, index: nat, d: int)
    requires w >= 2 && index < |s| && ZeroFrom(s, index) && Digits(s, w) && Sparse(s, w) && Clear(s, w, index) && IsDigit(d, w)
    ensures var s' := s[index := d]; Digits(s', w) && Sparse(s', w) && ZeroFrom(s', index + 1) && Clear(s', w, index + w)
  {
    var s' := s[index := d];
    forall t, u | 0 <= t < u < |s'| && s'[t] != 0 && s'[u] != 0
      ensures u - t >= w
    {
      assert u <= index;
    }
  }

  lemma Odd(scalar: int, k: int, s: seq<int>, w: nat, index: nat)
    requires w >= 2 && Inv(scalar, k, s, w, index) && k != 0 && k % 2 == 1
    ensures var next := if Rest(k, w) != 0 then index + w else index + 1;
            index <= 64 && next <= 65 && Inv(scalar, Rest(k, w), s[index := Nearest(k, w)], w, next)
  {
    hide Nearest, Rest;
    assert index <= 64;
    RestBound(k, w, 64 - index);
    OddParts(k, w);
    OddShape(s, w, index, Nearest(k, w));
    var next := if Rest(k, w) != 0 then index + w else index + 1;
    OddSum(scalar, k, s, w, index, next);
  }

  /** Digits go into 65 entries, zeroed beforehand, and nowhere else. They reproduce the scalar; each is zero or
      odd and below 2^(w-1) in absolute value; and non-zero ones are at least w places apart. The window is one for
      which the signed 32-bit shift 1 << w is defined. */
  method WnafRecode(scalar: int, w: nat, digits: array<int>)
    requires IsWord(scalar) && 2 <= w <= 30
    requires digits.Length == 65 && ZeroFrom(digits[..], 0)
    modifies digits
    ensures Expansion(digits[..], 0, 65) == scalar
    ensures Digits(digits[..], w) && Sparse(digits[..], w)
  {
    hide Inv, Nearest, Rest, Digits, Sparse, ZeroFrom, Clear;
    var index := 0;
    var val1 := Pow2(w - 1) - 1;
    var val2 := Pow2(w);
    var k := scalar;
    Start(scalar, digits[..], w);
    while k != 0
      invariant 0 <= k && index <= 65
      invariant Inv(scalar, k, digits[..], w, index)
      decreases k
    {
      ghost var before, k0, s := index, k, digits[..];
      var digit := k % 2;
      if digit == 0 {
        Even(scalar, k, s, w, index);
        k := k / 2;
        digits[index] := 0;
        assert digits[..] == s;
      } else {
        OddParts(k0, w);
        Odd(scalar, k0, s, w, index);
        digit := k % val2;
        k := k / val2;
        if digit > val1 {
          digit := digit - val2;
        }
        if digit < 0 {
          k := k + 1;
        }
        Parts(k0, w, digit, k);
        digits[index] := digit;
        ghost var s' := digits[..];
        assert s' == s[before := digit];
        if k != 0 {
          ZeroRun(scalar, k, s', w, before + w, before);
          for i := 0 to w - 1
            invariant index == before + i && digits[..] == s'
          {
            index := index + 1;
            digits[index] := 0;
            assert digits[..] == s';
          }
        }
      }
      index := index + 1;
    }
    End(scalar, digits[..], w, index);
  }

  /** The entries skipped after a digit are within the array and hold zero already. */
  lemma ZeroRun(scalar: int, k: int, s: seq<int>, w: nat, next: nat, at: nat)
    requires w >= 2 && Inv(scalar, k, s, w, next) && k != 0 && next == at + w && at < |s| && s[at] != 0
    ensures next <= 64 && forall t :: at < t < next ==> s[t] == 0
  {
    forall t | at < t < next
      ensures s[t] == 0
    {
      assert s[t] != 0 ==> t - at >= w;
    }
  }

  lemma End(scalar: int, s: seq<int>, w: nat, index: nat)
    requires w >= 2 && Inv(scalar, 0, s, w, index)
    ensures Expansion(s, 0, 65) == scalar && Digits(s, w) && Sparse(s, w)
  {
    ZeroTail(s, index, 65);
  }
}
