/** Packing the field elements of an item into a 128-bit block (`vec_to_oc_block` of receiver_ddh.cpp and
    sender_ddh.cpp), for an even number of elements per item. */
module ResultBlocks {
  import opened ModArith
  import opened BinarySums
  import opened Words
  import opened Interpolate

  datatype Block = Block(higher: int, lower: int)

  /** Bits of a field element: the least length from 1 on whose all-ones value reaches the modulus. */
  ghost predicate IsLength(len: nat, plainModulus: nat) {
    len >= 1 && plainModulus <= Pow2(len) - 1 && (len > 1 ==> Pow2(len - 1) - 1 < plainModulus)
  }

  lemma {:induction false} Pow2Below(m: nat, n: nat)
    requires m <= n
    ensures Pow2(m) <= Pow2(n)
  {
    if m < n {
      Pow2Below(m, n - 1);
    }
  }

  /** The modulus is small enough for the 32-bit shift 1 << length. */
  method ModulusLength(plainModulus: nat) returns (len: nat)
    requires plainModulus < Pow2(30)
    ensures IsLength(len, plainModulus) && len <= 30
  {
    len := 1;
    while Pow2(len) - 1 < plainModulus
      invariant 1 <= len <= 30 && (len > 1 ==> Pow2(len - 1) - 1 < plainModulus)
      decreases 30 - len
    {
      assert len != 30;
      len := len + 1;
    }
  }

  /** Digits in base 2^len, the first the most significant. */
  function PackValue(xs: seq<int>, len: nat): int {
    if xs == [] then 0 else PackValue(xs[..|xs| - 1], len) * Pow2(len) + xs[|xs| - 1]
  }

  ghost predicate Digits(xs: seq<int>, len: nat) {
    forall i :: 0 <= i < |xs| ==> 0 <= xs[i] < Pow2(len)
  }

  lemma DigitStep(v: int, p: int, q: int, x: int)
    requires 0 <= v < q && 0 <= x < p
    ensures 0 <= v * p + x < p * q
  {
    assert (v + 1) * p <= q * p by { MulLess(q - v, p); }
  }

  lemma {:induction false} PackBound(xs: seq<int>, len: nat)
    requires Digits(xs, len)
    ensures len * |xs| >= 0 && 0 <= PackValue(xs, len) < Pow2(len * |xs|)
  {
    if xs != [] {
      var n := |xs|;
      PackBound(xs[..n - 1], len);
      LengthStep(len, n);
      Pow2Add(len, len * (n - 1));
      DigitStep(PackValue(xs[..n - 1], len), Pow2(len), Pow2(len * (n - 1)), xs[n - 1]);
    } else {
      assert len * 0 == 0;
    }
  }

  lemma LengthStep(len: nat, n: nat)
    requires n >= 1
    ensures len * n == len + len * (n - 1) && len * (n - 1) >= 0
  {
  }

  lemma {:induction false} PackInjective(xs: seq<int>, ys: seq<int>, len: nat)
    requires Digits(xs, len) && Digits(ys, len) && |xs| == |ys| && PackValue(xs, len) == PackValue(ys, len)
    ensures xs == ys
  {
    if xs != [] {
      var n := |xs|;
      var p := Pow2(len);
      DivModUnique(PackValue(xs, len), PackValue(xs[..n - 1], len), xs[n - 1], p);
      DivModUnique(PackValue(ys, len), PackValue(ys[..n - 1], len), ys[n - 1], p);
      PackInjective(xs[..n - 1], ys[..n - 1], len);
      assert xs == xs[..n - 1] + [xs[n - 1]] && ys == ys[..n - 1] + [ys[n - 1]];
    }
  }

  /** Elements 0, 2, 4, ... and 1, 3, 5, ... */
  function Evens(xs: seq<int>): (r: seq<int>)
    ensures |r| == |xs| / 2 && forall i :: 0 <= i < |r| ==> r[i] == xs[2 * i]
  {
    seq(|xs| / 2, i requires 0 <= i < |xs| / 2 => xs[2 * i])
  }

  function Odds(xs: seq<int>): (r: seq<int>)
    ensures |r| == |xs| / 2 && forall i :: 0 <= i < |r| ==> r[i] == xs[2 * i + 1]
  {
    seq(|xs| / 2, i requires 0 <= i < |xs| / 2 => xs[2 * i + 1])
  }

  /** The block of an item when its halves fit in 64 bits. */
  function Packed(xs: seq<int>, len: nat): Block {
    Block(PackValue(Odds(xs), len), PackValue(Evens(xs), len))
  }

  /** `(x & mask) | (half << len)` in 64 bits: the shifted half has zeros where the element goes. */
  function Append(half: int, x: int, len: nat): int {
    half * Pow2(len) % WORD + x % Pow2(len)
  }

  lemma AppendExact(xs: seq<int>, len: nat, n: nat)
    requires Digits(xs, len) && n < |xs| && len * |xs| <= 64
    ensures Append(PackValue(xs[..n], len), xs[n], len) == PackValue(xs[..n + 1], len)
  {
    var half := PackValue(xs[..n], len);
    assert xs[..n + 1][..n] == xs[..n];
    PackBound(xs[..n + 1], len);
    MulMono(len, n + 1, |xs|);
    Pow2Below(len * (n + 1), 64);
    WordIsPow2();
    PackBound(xs[..n], len);
    NonNegative(half, Pow2(len));
    assert 0 <= half * Pow2(len) <= PackValue(xs[..n + 1], len) < WORD;
    DivModUnique(half * Pow2(len), 0, half * Pow2(len), WORD);
    DivModUnique(xs[n], 0, xs[n], Pow2(len));
  }

  lemma NonNegative(x: int, y: int)
    requires x >= 0 && y >= 0
    ensures x * y >= 0
  {
  }

  lemma MulMono(len: nat, a: nat, b: nat)
    requires a <= b
    ensures len * a <= len * b
  {
  }

  method VecToOcBlock(inp: seq<int>, feltsPerItem: nat, plainModulus: nat, ghost len: nat) returns (block: Block)
    requires |inp| == feltsPerItem && feltsPerItem % 2 == 0 && plainModulus < Pow2(30)
    requires Felts(inp, plainModulus) && IsLength(len, plainModulus) && len * (feltsPerItem / 2) <= 64
    ensures block == Packed(inp, len)
  {
    hide PackValue, Append, Digits, IsLength, Felts;
    var plainModulusLen := ModulusLength(plainModulus);
    LengthUnique(len, plainModulusLen, plainModulus);
    var lower, higher := 0, 0;
    ghost var evens, odds := Evens(inp), Odds(inp);
    HalvesAreDigits(inp, plainModulus, len);
    var pla := 0;
    ghost var h := 0;
    NoDigits(len, evens, odds);
    while pla < feltsPerItem
      invariant 0 <= pla <= feltsPerItem && pla == 2 * h
      invariant lower == PackValue(evens[..h], len) && higher == PackValue(odds[..h], len)
    {
      AppendExact(evens, len, h);
      AppendExact(odds, len, h);
      h := h + 1;
      lower := Append(lower, inp[pla], plainModulusLen);
      higher := Append(higher, inp[pla + 1], plainModulusLen);
      pla := pla + 2;
    }
    assert evens[..h] == evens && odds[..h] == odds;
    return Block(higher, lower);
  }

  lemma NoDigits(len: nat, xs: seq<int>, ys: seq<int>)
    ensures PackValue(xs[..0], len) == 0 == PackValue(ys[..0], len)
  {
  }

  lemma LengthUnique(a: nat, b: nat, plainModulus: nat)
    requires IsLength(a, plainModulus) && IsLength(b, plainModulus)
    ensures a == b
  {
    if a < b {
      Pow2Below(a, b - 1);
    } else if b < a {
      Pow2Below(b, a - 1);
    }
  }

  lemma HalvesAreDigits(inp: seq<int>, plainModulus: nat, len: nat)
    requires Felts(inp, plainModulus) && IsLength(len, plainModulus)
    ensures Digits(Evens(inp), len) && Digits(Odds(inp), len)
  {
  }

  /** Items have the same block exactly when they have the same elements. */
  lemma BlocksEqualIff(xs: seq<int>, ys: seq<int>, plainModulus: nat, len: nat)
    requires |xs| == |ys| && |xs| % 2 == 0 && Felts(xs, plainModulus) && Felts(ys, plainModulus) && IsLength(len, plainModulus)
    ensures Packed(xs, len) == Packed(ys, len) <==> xs == ys
  {
    hide PackValue;
    HalvesAreDigits(xs, plainModulus, len);
    HalvesAreDigits(ys, plainModulus, len);
    if Packed(xs, len) == Packed(ys, len) {
      PackInjective(Evens(xs), Evens(ys), len);
      PackInjective(Odds(xs), Odds(ys), len);
      forall i | 0 <= i < |xs|
        ensures xs[i] == ys[i]
      {
        if i % 2 == 0 {
          assert Evens(xs)[i / 2] == Evens(ys)[i / 2];
        } else {
          assert Odds(xs)[i / 2] == Odds(ys)[i / 2];
        }
      }
    }
  }
}
