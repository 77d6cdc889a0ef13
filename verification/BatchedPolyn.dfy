/** Evaluating the batched polynomial of a bin bundle on the powers of an encrypted query: plainly, and
    by Paterson-Stockmeyer (bin_bundle.cpp, receiver_ddh.cpp). */
module BatchedPolyn {
  import opened Exceptions
  import opened ModArith
  import opened Interpolate
  import opened Seal
  import opened SlotPolys
  import Slots

  // ---------- Slot values over the integers ----------

  /** v holds the residues of the values s. */
  ghost predicate Holds(v: Slots.Vec, s: seq<int>, p: int)
    requires p > 0
  {
    |v| == |s| && forall i :: 0 <= i < |v| ==> Cong(v[i], s[i], p)
  }

  ghost function Plus(s: seq<int>, t: seq<int>): (r: seq<int>)
    requires |s| == |t|
    ensures |r| == |s| && forall i :: 0 <= i < |r| ==> r[i] == s[i] + t[i]
  {
    seq(|s|, i requires 0 <= i < |s| => s[i] + t[i])
  }

  ghost function Times(s: seq<int>, t: seq<int>): (r: seq<int>)
    requires |s| == |t|
    ensures |r| == |s| && forall i :: 0 <= i < |r| ==> r[i] == s[i] * t[i]
  {
    seq(|s|, i requires 0 <= i < |s| => s[i] * t[i])
  }

  ghost function Powers(x: Slots.Vec, n: nat): (r: seq<int>)
    ensures |r| == |x| && forall i :: 0 <= i < |r| ==> r[i] == Pow(x[i], n)
  {
    seq(|x|, i requires 0 <= i < |x| => Pow(x[i], n))
  }

  lemma HoldsPlus(v: Slots.Vec, s: seq<int>, w: Slots.Vec, t: seq<int>, p: int)
    requires p > 0 && |v| == |w| && Holds(v, s, p) && Holds(w, t, p)
    ensures Holds(Slots.Add(v, w, p), Plus(s, t), p)
  {
    hide Cong;
    forall i | 0 <= i < |v| ensures Cong(Slots.Add(v, w, p)[i], Plus(s, t)[i], p) {
      CongAdd(v[i], s[i], w[i], t[i], p);
      CongMod(v[i] + w[i], p);
      CongTrans((v[i] + w[i]) % p, v[i] + w[i], s[i] + t[i], p);
    }
  }

  lemma HoldsTimes(v: Slots.Vec, s: seq<int>, w: Slots.Vec, t: seq<int>, p: int)
    requires p > 0 && |v| == |w| && Holds(v, s, p) && Holds(w, t, p)
    ensures Holds(Slots.Mul(v, w, p), Times(s, t), p)
  {
    hide Cong;
    forall i | 0 <= i < |v| ensures Cong(Slots.Mul(v, w, p)[i], Times(s, t)[i], p) {
      CongMul(v[i], s[i], w[i], t[i], p);
      CongMod(v[i] * w[i], p);
      CongTrans((v[i] * w[i]) % p, v[i] * w[i], s[i] * t[i], p);
    }
  }

  lemma PowerHolds(x: Slots.Vec, n: nat, p: int)
    requires p > 0
    ensures Holds(Slots.Power(x, n, p), Powers(x, n), p)
  {
    forall i | 0 <= i < |x| ensures Cong(Slots.Power(x, n, p)[i], Powers(x, n)[i], p) {
      CongMod(Pow(x[i], n), p);
    }
  }

  ghost predicate Shaped(coeffs: seq<Slots.Vec>, x: Slots.Vec) {
    |coeffs| > 0 && Rectangular(coeffs, |x|)
  }

  ghost function Inners(coeffs: seq<Slots.Vec>, x: Slots.Vec, base: nat, n: nat): (r: seq<int>)
    requires Shaped(coeffs, x) && (n == 0 || base + n < |coeffs|)
    ensures |r| == |x| && forall i :: 0 <= i < |r| ==> r[i] == Inner(Column(coeffs, i), x[i], base, n)
  {
    seq(|x|, i requires 0 <= i < |x| => Inner(Column(coeffs, i), x[i], base, n))
  }

  ghost function Highs(coeffs: seq<Slots.Vec>, x: Slots.Vec, h: nat, q: nat): (r: seq<int>)
    requires Shaped(coeffs, x) && h > 0 && q * h + h - 1 < |coeffs|
    ensures |r| == |x| && forall i :: 0 <= i < |r| ==> r[i] == HighSum(Column(coeffs, i), x[i], h, q)
  {
    seq(|x|, i requires 0 <= i < |x| => HighSum(Column(coeffs, i), x[i], h, q))
  }

  ghost function Frees(coeffs: seq<Slots.Vec>, x: Slots.Vec, h: nat, q: nat): (r: seq<int>)
    requires Shaped(coeffs, x) && q * h < |coeffs|
    ensures |r| == |x| && forall i :: 0 <= i < |r| ==> r[i] == FreeSum(Column(coeffs, i), x[i], h, q)
  {
    seq(|x|, i requires 0 <= i < |x| => FreeSum(Column(coeffs, i), x[i], h, q))
  }

  lemma InnersNext(coeffs: seq<Slots.Vec>, x: Slots.Vec, base: nat, n: nat)
    requires Shaped(coeffs, x) && base + n < |coeffs| && n > 0
    ensures Inners(coeffs, x, base, n) ==
            Plus(Inners(coeffs, x, base, n - 1), Times(coeffs[base + n], Powers(x, n)))
  {
  }

  lemma HighsNext(coeffs: seq<Slots.Vec>, x: Slots.Vec, h: nat, q: nat)
    requires Shaped(coeffs, x) && h > 0 && q > 0 && q * h + h - 1 < |coeffs| && (q - 1) * h + h - 1 < |coeffs|
    ensures Highs(coeffs, x, h, q) ==
            Plus(Highs(coeffs, x, h, q - 1), Times(Inners(coeffs, x, q * h, h - 1), Powers(x, q * h)))
  {
  }

  lemma FreesNext(coeffs: seq<Slots.Vec>, x: Slots.Vec, h: nat, q: nat)
    requires Shaped(coeffs, x) && h > 0 && q > 0 && q * h < |coeffs| && 0 <= (q - 1) * h < |coeffs|
    ensures Frees(coeffs, x, h, q) ==
            Plus(Frees(coeffs, x, h, q - 1), Times(coeffs[q * h], Powers(x, q * h)))
  {
  }

  /** What both evaluators must return: in each slot, the slot's polynomial at the slot's query value,
      plus the slot's mask. */
  function Masked(coeffs: seq<Slots.Vec>, x: Slots.Vec, mask: Slots.Vec, p: int): (r: Slots.Vec)
    requires p > 0 && |mask| == |x| && forall k :: 0 <= k < |coeffs| ==> |coeffs[k]| == |x|
    ensures |r| == |x|
    ensures forall i :: 0 <= i < |x| ==> r[i] == (Interpolate.Eval(Column(coeffs, i), x[i]) + mask[i]) % p
  {
    seq(|x|, i requires 0 <= i < |x| => (Interpolate.Eval(Column(coeffs, i), x[i]) + mask[i]) % p)
  }

  /** A reduced sum that is congruent to polynomial plus mask is the masked value. */
  lemma IsMasked(v: Slots.Vec, s: seq<int>, coeffs: seq<Slots.Vec>, x: Slots.Vec, mask: Slots.Vec, p: int)
    requires p > 0 && Shaped(coeffs, x) && |mask| == |x| && |s| == |x|
    requires forall i :: 0 <= i < |x| ==> s[i] == Interpolate.Eval(Column(coeffs, i), x[i])
    requires Holds(v, s, p)
    ensures Slots.Add(v, mask, p) == Masked(coeffs, x, mask, p)
  {
    hide Interpolate.Eval;
    var w := Slots.Add(v, mask, p);
    forall i | 0 <= i < |x| ensures w[i] == Masked(coeffs, x, mask, p)[i] {
      CongAdd(v[i], s[i], mask[i], mask[i], p);
    }
  }

  // ---------- How the operands are prepared ----------

  /** The levels and forms `ComputePowers` leaves: without Paterson-Stockmeyer (l == 0) every power is
      in NTT form one level up; with it, low powers are in NTT form two levels up, and of the others
      only multiples of l+1 exist, one level up and not in NTT form. */
  ghost function PreparedPower(x: Slots.Vec, first: nat, l: nat, j: nat, p: int): Ciphertext
    requires p > 0
  {
    if l == 0 then Ciphertext(Slots.Power(x, j, p), true, ChainLevel(first, 1))
    else if j <= l then Ciphertext(Slots.Power(x, j, p), true, ChainLevel(first, 2))
    else if j % (l + 1) == 0 then Ciphertext(Slots.Power(x, j, p), false, ChainLevel(first, 1))
    else Unset
  }

  ghost predicate Prepared(powers: seq<Ciphertext>, x: Slots.Vec, first: nat, l: nat, p: int)
    requires p > 0
  {
    forall j :: 1 <= j < |powers| ==> powers[j] == PreparedPower(x, first, l, j, p)
  }

  predicate CoeffInNtt(l: nat, k: nat) {
    (l == 0 && k != 0) || (l > 0 && k % (l + 1) != 0)
  }

  ghost predicate Encoded(batched: seq<Plaintext>, coeffs: seq<Slots.Vec>, first: nat, l: nat) {
    |batched| == |coeffs| &&
    forall k :: 0 <= k < |batched| ==> EncodedAt(batched[k], coeffs[k], first, l, k)
  }

  ghost predicate EncodedAt(a: Plaintext, c: Slots.Vec, first: nat, l: nat, k: nat) {
    && a.slots == c && (a.ntt <==> CoeffInNtt(l, k))
    && (a.ntt ==> a.level == ChainLevel(first, if l == 0 then 1 else 2))
  }

  /** One plaintext multiplication c[base+n] * x^n, accumulated. */
  lemma InnerTerm(temp: Slots.Vec, coeffs: seq<Slots.Vec>, x: Slots.Vec, base: nat, n: nat, p: int)
    requires p > 0 && Shaped(coeffs, x) && base + n < |coeffs| && n > 0
    requires Holds(temp, Inners(coeffs, x, base, n - 1), p)
    ensures Holds(Slots.Add(temp, Slots.Mul(coeffs[base + n], Slots.Power(x, n, p), p), p),
                  Inners(coeffs, x, base, n), p)
  {
    hide Cong, Inners;
    SelfHolds(coeffs[base + n], p);
    PowerHolds(x, n, p);
    HoldsTimes(coeffs[base + n], coeffs[base + n], Slots.Power(x, n, p), Powers(x, n), p);
    HoldsPlus(temp, Inners(coeffs, x, base, n - 1),
              Slots.Mul(coeffs[base + n], Slots.Power(x, n, p), p), Times(coeffs[base + n], Powers(x, n)), p);
    InnersNext(coeffs, x, base, n);
  }

  lemma SelfHolds(v: Slots.Vec, p: int)
    requires p > 0
    ensures Holds(v, v, p)
  {
  }

  lemma ZeroHolds(coeffs: seq<Slots.Vec>, x: Slots.Vec, base: nat, p: int)
    requires p > 0 && Shaped(coeffs, x)
    ensures Holds(Zero(|x|), Inners(coeffs, x, base, 0), p)
  {
  }

  /** A first term that is assigned instead of added. */
  lemma FirstTerm(coeffs: seq<Slots.Vec>, x: Slots.Vec, base: nat, p: int)
    requires p > 0 && Shaped(coeffs, x) && base + 1 < |coeffs|
    ensures Holds(Slots.Mul(coeffs[base + 1], Slots.Power(x, 1, p), p), Inners(coeffs, x, base, 1), p)
  {
    hide Cong;
    SelfHolds(coeffs[base + 1], p);
    PowerHolds(x, 1, p);
    HoldsTimes(coeffs[base + 1], coeffs[base + 1], Slots.Power(x, 1, p), Powers(x, 1), p);
    assert Inners(coeffs, x, base, 1) == Times(coeffs[base + 1], Powers(x, 1)) by {
      InnersNext(coeffs, x, base, 1);
    }
  }

  /** Highest degree among the polynomials, 0 if there are none. */
  function MaxDegree(polyns: seq<seq<int>>): (d: nat)
    ensures forall b :: 0 <= b < |polyns| ==> |polyns[b]| <= d + 1
  {
    if polyns == [] then 0
    else
      var d, last := MaxDegree(polyns[..|polyns| - 1]), |polyns[|polyns| - 1]|;
      if last < d + 1 then d else last - 1
  }

  /** The coefficients of degree k of all polynomials, zero-padded to the slots. */
  function Coefficients(polyns: seq<seq<int>>, n: nat, k: nat): (r: Slots.Vec)
    requires |polyns| <= n
    ensures |r| == n
    ensures forall b :: 0 <= b < n ==> r[b] == if b < |polyns| && k < |polyns[b]| then polyns[b][k] else 0
  {
    seq(n, b requires 0 <= b < n => if b < |polyns| && k < |polyns[b]| then polyns[b][k] else 0)
  }

  function Batched(polyns: seq<seq<int>>, n: nat): (r: seq<Slots.Vec>)
    requires |polyns| <= n
    ensures |r| == MaxDegree(polyns) + 1 && forall k :: 0 <= k < |r| ==> r[k] == Coefficients(polyns, n, k)
  {
    seq(MaxDegree(polyns) + 1, k requires 0 <= k < MaxDegree(polyns) + 1 => Coefficients(polyns, n, k))
  }

  /** A coefficient vector followed by zeros has the same values. */
  lemma {:induction false} ZeroPadded(c: seq<int>, d: seq<int>, x: int)
    requires |c| <= |d| && d[..|c|] == c && forall k :: |c| <= k < |d| ==> d[k] == 0
    ensures Interpolate.Eval(d, x) == Interpolate.Eval(c, x)
  {
    if c == [] {
      EvalZeros(d, x);
    } else {
      assert d[1..][..|c[1..]|] == d[..|c|][1..] == c[1..];
      ZeroPadded(c[1..], d[1..], x);
    }
  }

  /** Slot b of the batched polynomials evaluates polynomial b; the slots beyond evaluate to 0. */
  lemma BatchedSlot(polyns: seq<seq<int>>, n: nat, b: nat, x: int)
    requires |polyns| <= n && b < n
    ensures Interpolate.Eval(Column(Batched(polyns, n), b), x) ==
            if b < |polyns| then Interpolate.Eval(polyns[b], x) else 0
  {
    var d := Column(Batched(polyns, n), b);
    if b < |polyns| {
      ZeroPadded(polyns[b], d, x);
    } else {
      EvalZeros(d, x);
    }
  }

  class BatchedPlaintextPolyn {
    var batchedCoeffs: seq<Plaintext>

    constructor (polyns: seq<seq<int>>, slotCount: nat, first: nat, psLowDegree: nat)
      requires |polyns| <= slotCount
      ensures Encoded(batchedCoeffs, Batched(polyns, slotCount), first, psLowDegree)
    {
      batchedCoeffs := [];
      new;
      var maxDeg := 0;
      for b := 0 to |polyns|
        invariant maxDeg == MaxDegree(polyns[..b])
      {
        assert polyns[..b + 1][..b] == polyns[..b];
        var size := |polyns[b]|;
        maxDeg := (if size < maxDeg + 1 then maxDeg + 1 else size) - 1;
      }
      assert polyns[..|polyns|] == polyns;
      var level := ChainLevel(first, if psLowDegree != 0 then 2 else 1);
      for i := 0 to maxDeg + 1
        invariant |batchedCoeffs| == i
        invariant forall k :: 0 <= k < i ==> EncodedAt(batchedCoeffs[k], Coefficients(polyns, slotCount, k), first, psLowDegree, k)
      {
        var ofDegree: seq<int> := [];
        for b := 0 to |polyns|
          invariant |ofDegree| == b
          invariant forall j :: 0 <= j < b ==> ofDegree[j] == if i < |polyns[j]| then polyns[j][i] else 0
        {
          ofDegree := ofDegree + [if i < |polyns[b]| then polyns[b][i] else 0];
        }
        var slots := ofDegree + Zero(slotCount - |polyns|);
        assert slots == Coefficients(polyns, slotCount, i);
        var ntt := (psLowDegree == 0 && i != 0) || (psLowDegree != 0 && i % (psLowDegree + 1) != 0);
        batchedCoeffs := batchedCoeffs + [Plaintext(slots, ntt, if ntt then level else 0)];
      }
    }

    /** The plain evaluation: all terms in NTT form, then the constant and the mask. It succeeds with
        the powers prepared without Paterson-Stockmeyer, or for a polynomial whose degree does not
        exceed ps_low_degree; otherwise it throws, because x^(ps_low_degree+1) is then prepared as a
        power of high degree. */
    method Evaluate(powers: seq<Ciphertext>, mask: Plaintext, p: int,
                    ghost coeffs: seq<Slots.Vec>, ghost x: Slots.Vec, ghost first: nat, ghost l: nat)
      returns (r: Result<Ciphertext>)
      requires p > 0 && Shaped(coeffs, x) && |mask.slots| == |x| && !mask.ntt
      requires Encoded(batchedCoeffs, coeffs, first, l) && Prepared(powers, x, first, l, p)
      ensures |powers| < 2 || |powers| < |coeffs| ==> r.InvalidArgument?
      ensures |powers| >= 2 && |powers| >= |coeffs| && (l == 0 || |coeffs| - 1 <= l) ==>
                r == Ok(Ciphertext(Masked(coeffs, x, mask.slots, p), false, 0))
      ensures l > 0 && |coeffs| - 1 > l ==> r.InvalidArgument?
    {
      hide Masked, Inners, Holds, Slots.Mul, Slots.Add, Slots.Power, Interpolate.Eval;
      if |powers| < |batchedCoeffs| || |powers| < 2 {
        return InvalidArgument;
      }
      assert powers[1] == PreparedPower(x, first, l, 1, p);
      var encodeLevel := powers[1].level;
      var result := Ciphertext(Zero(|powers[1].slots|), true, encodeLevel);
      ZeroHolds(coeffs, x, 0, p);
      for deg := 1 to |batchedCoeffs|
        invariant l > 0 ==> deg <= l + 1
        invariant l == 0 || deg <= l + 1 ==>
                    result.Ciphertext? && result.ntt && result.level == encodeLevel
                    && Holds(result.slots, Inners(coeffs, x, 0, deg - 1), p)
        invariant |powers| >= |batchedCoeffs|
      {
        assert powers[deg] == PreparedPower(x, first, l, deg, p);
        assert EncodedAt(batchedCoeffs[deg], coeffs[deg], first, l, deg);
        if l != 0 && deg <= l { SmallMod(deg, l + 1); }
        if l != 0 && deg == l + 1 { ModMultiple(1, l + 1); }
        var temp := MultiplyPlain(powers[deg], batchedCoeffs[deg], p).Extract();
        if l == 0 || deg <= l {
          assert |result.slots| == |x| by { HoldsLength(result.slots, coeffs, x, deg - 1, p); }
          InnerTerm(result.slots, coeffs, x, 0, deg, p);
        }
        result :- Add(result, temp, p);
      }
      result := FromNtt(result).Extract();
      assert EncodedAt(batchedCoeffs[0], coeffs[0], first, l, 0);
      PlainSum(result.slots, coeffs, x, mask.slots, p);
      result := AddPlain(result, batchedCoeffs[0], p).Extract();
      result := AddPlain(result, mask, p).Extract();
      result := ModSwitchTo(result, 0).Extract();
      return Ok(result);
    }

    /** The terms 1 .. n of the inner polynomial at `base`, brought out of NTT form and down to the
        level of the high powers. */
    method InnerPolynomial(powers: seq<Ciphertext>, base: nat, n: nat, l: nat, high: nat, p: int,
                           ghost coeffs: seq<Slots.Vec>, ghost x: Slots.Vec, ghost first: nat)
      returns (r: Ciphertext)
      requires Operands(batchedCoeffs, powers, coeffs, x, first, l, p) && high == ChainLevel(first, 1)
      requires 1 <= n <= l && base % (l + 1) == 0 && base + n < |coeffs| && |powers| >= |coeffs|
      ensures r.Ciphertext? && !r.ntt && r.level == high
      ensures Holds(r.slots, Inners(coeffs, x, base, n), p) && |r.slots| == |x|
    {
      hide Inners, Holds, Slots.Mul, Slots.Add, Slots.Power;
      var tempIn := Unset;
      for j := 1 to n + 1
        invariant j == 1 || (tempIn.Ciphertext? && tempIn.ntt && tempIn.level == ChainLevel(first, 2)
                             && |tempIn.slots| == |x| && Holds(tempIn.slots, Inners(coeffs, x, base, j - 1), p))
      {
        LowOperands(batchedCoeffs, powers, coeffs, x, first, l, p, base, j);
        var temp := MultiplyPlain(powers[j], batchedCoeffs[base + j], p).Extract();
        if j == 1 {
          FirstTerm(coeffs, x, base, p);
          tempIn := temp;
        } else {
          InnerTerm(tempIn.slots, coeffs, x, base, j, p);
          tempIn := Add(tempIn, temp, p).Extract();
        }
      }
      tempIn := FromNtt(tempIn).Extract();
      tempIn := ModSwitchTo(tempIn, high).Extract();
      return tempIn;
    }

    /** The inner polynomials 1 .. count of full length, each times its power of high degree. */
    method HighPart(powers: seq<Ciphertext>, count: nat, l: nat, high: nat, p: int,
                    ghost coeffs: seq<Slots.Vec>, ghost x: Slots.Vec, ghost first: nat)
      returns (r: Ciphertext)
      requires Operands(batchedCoeffs, powers, coeffs, x, first, l, p) && high == ChainLevel(first, 1)
      requires l >= 1 && count * (l + 1) + l < |coeffs| <= |powers|
      ensures r.Ciphertext? && !r.ntt && r.level == high
      ensures Holds(r.slots, Highs(coeffs, x, l + 1, count), p) && |r.slots| == |x|
    {
      hide Inners, Holds, Highs, Slots.Mul, Slots.Add, Slots.Power;
      var h := l + 1;
      var result := Ciphertext(Zero(|powers[1].slots|), false, high);
      HighStart(coeffs, x, h, p);
      for i := 1 to count + 1
        invariant result.Ciphertext? && !result.ntt && result.level == high && |result.slots| == |x|
        invariant (i - 1) * h + l < |coeffs| && Holds(result.slots, Highs(coeffs, x, h, i - 1), p)
      {
        HighIndex(i, count, h);
        ModMultiple(i, h);
        var tempIn := InnerPolynomial(powers, i * h, l, l, high, p, coeffs, x, first);
        HighOperand(batchedCoeffs, powers, coeffs, x, first, l, p, i * h);
        HighTerm(result.slots, tempIn.slots, coeffs, x, h, i, p);
        tempIn := Multiply(tempIn, powers[i * h], p).Extract();
        result := Add(result, tempIn, p).Extract();
      }
      return result;
    }

    /** Adds the inner polynomial 0, term by term. */
    method LowPart(start: Ciphertext, powers: seq<Ciphertext>, l: nat, high: nat, p: int, ghost s: seq<int>,
                   ghost coeffs: seq<Slots.Vec>, ghost x: Slots.Vec, ghost first: nat)
      returns (r: Ciphertext)
      requires Operands(batchedCoeffs, powers, coeffs, x, first, l, p) && high == ChainLevel(first, 1)
      requires 1 <= l < |coeffs| <= |powers| && |s| == |x|
      requires start.Ciphertext? && !start.ntt && start.level == high && Holds(start.slots, s, p)
      ensures r.Ciphertext? && !r.ntt && r.level == high
      ensures Holds(r.slots, Plus(s, Inners(coeffs, x, 0, l)), p)
    {
      hide Inners, Holds, Plus, Slots.Mul, Slots.Add, Slots.Power;
      var result := start;
      LowStart(start.slots, s, coeffs, x, p);
      for j := 1 to l + 1
        invariant result.Ciphertext? && !result.ntt && result.level == high
        invariant |result.slots| == |x| && Holds(result.slots, Plus(s, Inners(coeffs, x, 0, j - 1)), p)
      {
        LowOperands(batchedCoeffs, powers, coeffs, x, first, l, p, 0, j);
        var temp := MultiplyPlain(powers[j], batchedCoeffs[j], p).Extract();
        LowTerm(result.slots, s, coeffs, x, j, p);
        temp := FromNtt(temp).Extract();
        temp := ModSwitchTo(temp, high).Extract();
        result := Add(result, temp, p).Extract();
      }
      return result;
    }

    /** Adds the free terms of the inner polynomials 1 .. count times their powers. */
    method FreePart(start: Ciphertext, powers: seq<Ciphertext>, count: nat, l: nat, high: nat, p: int,
                    ghost s: seq<int>, ghost coeffs: seq<Slots.Vec>, ghost x: Slots.Vec, ghost first: nat)
      returns (r: Ciphertext)
      requires Operands(batchedCoeffs, powers, coeffs, x, first, l, p) && high == ChainLevel(first, 1)
      requires l >= 1 && count * (l + 1) < |coeffs| <= |powers| && |s| == |x|
      requires start.Ciphertext? && !start.ntt && start.level == high && Holds(start.slots, s, p)
      ensures r.Ciphertext? && !r.ntt && r.level == high
      ensures Holds(r.slots, Plus(s, Frees(coeffs, x, l + 1, count)), p)
    {
      hide Frees, Holds, Plus, Slots.Mul, Slots.Add, Slots.Power;
      var h := l + 1;
      var result := start;
      FreeStart(start.slots, s, coeffs, x, h, p);
      for i := 1 to count + 1
        invariant result.Ciphertext? && !result.ntt && result.level == high && |result.slots| == |x|
        invariant 0 <= (i - 1) * h < |coeffs| && Holds(result.slots, Plus(s, Frees(coeffs, x, h, i - 1)), p)
      {
        HighIndex(i, count, h);
        ModMultiple(i, h);
        HighOperand(batchedCoeffs, powers, coeffs, x, first, l, p, i * h);
        FreeTerm(result.slots, s, coeffs, x, h, i, p);
        var temp := MultiplyPlain(powers[i * h], batchedCoeffs[i * h], p).Extract();
        temp := ModSwitchTo(temp, high).Extract();
        result := Add(result, temp, p).Extract();
      }
      return result;
    }

    /** The Paterson-Stockmeyer evaluation returns what the plain one does, for every degree above
        ps_low_degree, from the powers the DAG provides, and pairs operands of equal form and level
        throughout. */
    method EvaluatePatstock(powers: seq<Ciphertext>, psLowDegree: nat, first: nat, mask: Plaintext, p: int,
                            ghost coeffs: seq<Slots.Vec>, ghost x: Slots.Vec)
      returns (r: Result<Ciphertext>)
      requires Operands(batchedCoeffs, powers, coeffs, x, first, psLowDegree, p)
      requires |mask.slots| == |x| && !mask.ntt
      ensures |powers| < 2 || |powers| < |coeffs| || psLowDegree <= 1 || psLowDegree >= |coeffs| - 1 ==>
                r.InvalidArgument?
      ensures |powers| >= |coeffs| && 1 < psLowDegree < |coeffs| - 1 ==>
                r == Ok(Ciphertext(Masked(coeffs, x, mask.slots, p), false, 0))
    {
      hide Inners, Frees, Highs, Holds, Plus, Times, Powers, Masked, Slots.Mul, Slots.Add, Slots.Power;
      if |powers| < |batchedCoeffs| || |powers| < 2 {
        return InvalidArgument;
      }
      var degree := |batchedCoeffs| - 1;
      if psLowDegree <= 1 || psLowDegree >= degree {
        return InvalidArgument;
      }
      var high := ChainLevel(first, 1);
      var h := psLowDegree + 1;
      var k, rest := degree / h, degree % h;
      DegreeSplit(degree, h);
      var result := HighPart(powers, k - 1, psLowDegree, high, p, coeffs, x, first);
      ghost var s := WithLast(coeffs, x, h, k, rest);
      if rest > 0 {
        ModMultiple(k, h);
        var tempIn := InnerPolynomial(powers, k * h, rest, psLowDegree, high, p, coeffs, x, first);
        HighOperand(batchedCoeffs, powers, coeffs, x, first, psLowDegree, p, k * h);
        LastTerm(result.slots, tempIn.slots, coeffs, x, h, k, rest, p);
        tempIn := Multiply(tempIn, powers[k * h], p).Extract();
        result := Add(result, tempIn, p).Extract();
      } else {
        NoLastTerm(result.slots, coeffs, x, h, k, p);
      }
      result := LowPart(result, powers, psLowDegree, high, p, s, coeffs, x, first);
      ghost var s1 := Plus(s, Inners(coeffs, x, 0, psLowDegree));
      result := FreePart(result, powers, k, psLowDegree, high, p, s1, coeffs, x, first);
      AllParts(result.slots, coeffs, x, mask.slots, h, k, rest, p);
      assert EncodedAt(batchedCoeffs[0], coeffs[0], first, psLowDegree, 0);
      result := AddPlain(result, batchedCoeffs[0], p).Extract();
      result := AddPlain(result, mask, p).Extract();
      result := ModSwitchTo(result, 0).Extract();
      return Ok(result);
    }
  }

  ghost predicate Operands(batched: seq<Plaintext>, powers: seq<Ciphertext>, coeffs: seq<Slots.Vec>,
                           x: Slots.Vec, first: nat, l: nat, p: int)
  {
    p > 0 && Shaped(coeffs, x) && Encoded(batched, coeffs, first, l) && Prepared(powers, x, first, l, p)
  }

  /** Low operands meet in NTT form, two levels up. */
  lemma LowOperands(batched: seq<Plaintext>, powers: seq<Ciphertext>, coeffs: seq<Slots.Vec>, x: Slots.Vec,
                    first: nat, l: nat, p: int, base: nat, j: nat)
    requires Operands(batched, powers, coeffs, x, first, l, p)
    requires 1 <= j <= l && base % (l + 1) == 0 && base + j < |coeffs| <= |powers|
    ensures powers[j] == Ciphertext(Slots.Power(x, j, p), true, ChainLevel(first, 2))
    ensures batched[base + j] == Plaintext(coeffs[base + j], true, ChainLevel(first, 2))
    ensures |coeffs[base + j]| == |x|
  {
    assert powers[j] == PreparedPower(x, first, l, j, p);
    var q := base / (l + 1);
    assert base == q * (l + 1);
    DivModUnique(base + j, q, j, l + 1);
    assert EncodedAt(batched[base + j], coeffs[base + j], first, l, base + j);
  }

  /** High operands meet outside NTT form, one level up. */
  lemma HighOperand(batched: seq<Plaintext>, powers: seq<Ciphertext>, coeffs: seq<Slots.Vec>, x: Slots.Vec,
                    first: nat, l: nat, p: int, n: nat)
    requires Operands(batched, powers, coeffs, x, first, l, p)
    requires l >= 1 && n > 0 && n % (l + 1) == 0 && n < |coeffs| <= |powers|
    ensures powers[n] == Ciphertext(Slots.Power(x, n, p), false, ChainLevel(first, 1))
    ensures batched[n].slots == coeffs[n] && !batched[n].ntt && |coeffs[n]| == |x|
  {
    if n <= l {
      SmallMod(n, l + 1);
    }
    assert powers[n] == PreparedPower(x, first, l, n, p);
    assert EncodedAt(batched[n], coeffs[n], first, l, n);
  }

  lemma HighIndex(i: nat, count: nat, h: nat)
    requires 0 < i <= count && h > 0
    ensures 0 < i * h <= count * h && (i - 1) * h == i * h - h
  {
    assert i * h + (count - i) * h == count * h;
    assert (count - i) * h >= 0 && i * h >= h;
  }

  lemma DegreeSplit(degree: nat, h: nat)
    requires 0 < h <= degree
    ensures degree / h > 0 && degree == (degree / h) * h + degree % h
    ensures (degree / h - 1) * h + h - 1 < degree && 0 <= (degree / h - 1) * h
  {
    var k := degree / h;
    assert degree == k * h + degree % h;
    assert (k - 1) * h == k * h - h;
  }

  lemma HighStart(coeffs: seq<Slots.Vec>, x: Slots.Vec, h: nat, p: int)
    requires p > 0 && Shaped(coeffs, x) && h > 0 && h - 1 < |coeffs|
    ensures 0 * h + h - 1 < |coeffs| && Holds(Zero(|x|), Highs(coeffs, x, h, 0), p)
  {
  }

  lemma HighTerm(v: Slots.Vec, w: Slots.Vec, coeffs: seq<Slots.Vec>, x: Slots.Vec, h: nat, i: nat, p: int)
    requires p > 0 && Shaped(coeffs, x) && h > 1 && i > 0
    requires i * h + h - 1 < |coeffs| && 0 <= (i - 1) * h + h - 1 < |coeffs| && |v| == |w| == |x|
    requires Holds(v, Highs(coeffs, x, h, i - 1), p) && Holds(w, Inners(coeffs, x, i * h, h - 1), p)
    ensures Holds(Slots.Add(v, Slots.Mul(w, Slots.Power(x, i * h, p), p), p), Highs(coeffs, x, h, i), p)
  {
    hide Inners, Highs, Holds, Plus, Times, Powers, Slots.Add, Slots.Mul, Slots.Power;
    PowerHolds(x, i * h, p);
    HoldsTimes(w, Inners(coeffs, x, i * h, h - 1), Slots.Power(x, i * h, p), Powers(x, i * h), p);
    HoldsPlus(v, Highs(coeffs, x, h, i - 1), Slots.Mul(w, Slots.Power(x, i * h, p), p),
              Times(Inners(coeffs, x, i * h, h - 1), Powers(x, i * h)), p);
    HighsNext(coeffs, x, h, i);
  }

  lemma LowStart(v: Slots.Vec, s: seq<int>, coeffs: seq<Slots.Vec>, x: Slots.Vec, p: int)
    requires p > 0 && Shaped(coeffs, x) && |s| == |x| && Holds(v, s, p)
    ensures |v| == |x| && Holds(v, Plus(s, Inners(coeffs, x, 0, 0)), p)
  {
    assert Plus(s, Inners(coeffs, x, 0, 0)) == s;
  }

  lemma LowTerm(v: Slots.Vec, s: seq<int>, coeffs: seq<Slots.Vec>, x: Slots.Vec, j: nat, p: int)
    requires p > 0 && Shaped(coeffs, x) && |s| == |x| && 0 < j < |coeffs| && |v| == |x|
    requires Holds(v, Plus(s, Inners(coeffs, x, 0, j - 1)), p)
    ensures Holds(Slots.Add(v, Slots.Mul(coeffs[j], Slots.Power(x, j, p), p), p), Plus(s, Inners(coeffs, x, 0, j)), p)
  {
    hide Cong, Inner, Pow;
    SelfHolds(coeffs[j], p);
    PowerHolds(x, j, p);
    HoldsTimes(coeffs[j], coeffs[j], Slots.Power(x, j, p), Powers(x, j), p);
    var t := Times(coeffs[j], Powers(x, j));
    HoldsPlus(v, Plus(s, Inners(coeffs, x, 0, j - 1)), Slots.Mul(coeffs[j], Slots.Power(x, j, p), p), t, p);
    InnersNext(coeffs, x, 0, j);
    assert Plus(Plus(s, Inners(coeffs, x, 0, j - 1)), t) == Plus(s, Inners(coeffs, x, 0, j));
  }

  lemma FreeStart(v: Slots.Vec, s: seq<int>, coeffs: seq<Slots.Vec>, x: Slots.Vec, h: nat, p: int)
    requires p > 0 && Shaped(coeffs, x) && |s| == |x| && Holds(v, s, p)
    ensures |v| == |x| && 0 * h == 0 && Holds(v, Plus(s, Frees(coeffs, x, h, 0)), p)
  {
    assert Plus(s, Frees(coeffs, x, h, 0)) == s;
  }

  lemma FreeTerm(v: Slots.Vec, s: seq<int>, coeffs: seq<Slots.Vec>, x: Slots.Vec, h: nat, i: nat, p: int)
    requires p > 0 && Shaped(coeffs, x) && |s| == |x| && h > 0 && i > 0 && |v| == |x|
    requires 0 <= (i - 1) * h < |coeffs| && i * h < |coeffs|
    requires Holds(v, Plus(s, Frees(coeffs, x, h, i - 1)), p)
    ensures Holds(Slots.Add(v, Slots.Mul(coeffs[i * h], Slots.Power(x, i * h, p), p), p),
                  Plus(s, Frees(coeffs, x, h, i)), p)
  {
    hide Cong, FreeSum, Pow;
    var n := i * h;
    SelfHolds(coeffs[n], p);
    PowerHolds(x, n, p);
    HoldsTimes(coeffs[n], coeffs[n], Slots.Power(x, n, p), Powers(x, n), p);
    var t := Times(coeffs[n], Powers(x, n));
    HoldsPlus(v, Plus(s, Frees(coeffs, x, h, i - 1)), Slots.Mul(coeffs[n], Slots.Power(x, n, p), p), t, p);
    FreesNext(coeffs, x, h, i);
    assert Plus(Plus(s, Frees(coeffs, x, h, i - 1)), t) == Plus(s, Frees(coeffs, x, h, i));
  }

  /** The full inner polynomials and the last, shorter one. */
  ghost function WithLast(coeffs: seq<Slots.Vec>, x: Slots.Vec, h: nat, k: nat, rest: nat): (r: seq<int>)
    requires Shaped(coeffs, x) && h > 0 && k > 0 && 0 <= (k - 1) * h + h - 1 < |coeffs|
    requires k * h + rest < |coeffs|
    ensures |r| == |x|
  {
    Plus(Highs(coeffs, x, h, k - 1), Times(Inners(coeffs, x, k * h, rest), Powers(x, k * h)))
  }

  lemma LastTerm(v: Slots.Vec, w: Slots.Vec, coeffs: seq<Slots.Vec>, x: Slots.Vec, h: nat, k: nat, rest: nat, p: int)
    requires p > 0 && Shaped(coeffs, x) && h > 0 && k > 0 && 0 <= (k - 1) * h + h - 1 < |coeffs|
    requires k * h + rest < |coeffs| && |v| == |w| == |x|
    requires Holds(v, Highs(coeffs, x, h, k - 1), p) && Holds(w, Inners(coeffs, x, k * h, rest), p)
    ensures Holds(Slots.Add(v, Slots.Mul(w, Slots.Power(x, k * h, p), p), p), WithLast(coeffs, x, h, k, rest), p)
  {
    hide Inners, Highs, Holds, Plus, Times, Powers, Slots.Add, Slots.Mul, Slots.Power;
    PowerHolds(x, k * h, p);
    HoldsTimes(w, Inners(coeffs, x, k * h, rest), Slots.Power(x, k * h, p), Powers(x, k * h), p);
    HoldsPlus(v, Highs(coeffs, x, h, k - 1), Slots.Mul(w, Slots.Power(x, k * h, p), p),
              Times(Inners(coeffs, x, k * h, rest), Powers(x, k * h)), p);
  }

  lemma NoLastTerm(v: Slots.Vec, coeffs: seq<Slots.Vec>, x: Slots.Vec, h: nat, k: nat, p: int)
    requires p > 0 && Shaped(coeffs, x) && h > 0 && k > 0 && 0 <= (k - 1) * h + h - 1 < |coeffs|
    requires k * h < |coeffs| && Holds(v, Highs(coeffs, x, h, k - 1), p)
    ensures Holds(v, WithLast(coeffs, x, h, k, 0), p)
  {
    assert WithLast(coeffs, x, h, k, 0) == Highs(coeffs, x, h, k - 1);
  }

  /** The parts add up to the polynomial. */
  lemma AllParts(v: Slots.Vec, coeffs: seq<Slots.Vec>, x: Slots.Vec, mask: Slots.Vec, h: nat, k: nat, rest: nat, p: int)
    requires p > 0 && Shaped(coeffs, x) && |mask| == |x| && h > 0 && k > 0 && rest < h
    requires 0 <= (k - 1) * h + h - 1 < |coeffs| && |coeffs| == k * h + rest + 1 && h - 1 < |coeffs|
    requires Holds(v, Plus(Plus(WithLast(coeffs, x, h, k, rest), Inners(coeffs, x, 0, h - 1)), Frees(coeffs, x, h, k)), p)
    ensures |v| == |x| && Slots.Add(Slots.Add(v, coeffs[0], p), mask, p) == Masked(coeffs, x, mask, p)
  {
    hide Cong, Masked, Inner, HighSum, FreeSum, Interpolate.Eval;
    var s := Plus(Plus(WithLast(coeffs, x, h, k, rest), Inners(coeffs, x, 0, h - 1)), Frees(coeffs, x, h, k));
    SelfHolds(coeffs[0], p);
    HoldsPlus(v, s, coeffs[0], coeffs[0], p);
    forall i | 0 <= i < |x| ensures Plus(s, coeffs[0])[i] == Interpolate.Eval(Column(coeffs, i), x[i]) {
      SplitSum(Column(coeffs, i), x[i], h, k, rest);
    }
    IsMasked(Slots.Add(v, coeffs[0], p), Plus(s, coeffs[0]), coeffs, x, mask, p);
  }

  lemma PlainSum(v: Slots.Vec, coeffs: seq<Slots.Vec>, x: Slots.Vec, mask: Slots.Vec, p: int)
    requires p > 0 && Shaped(coeffs, x) && |mask| == |x| && Holds(v, Inners(coeffs, x, 0, |coeffs| - 1), p)
    ensures |v| == |x| && Slots.Add(Slots.Add(v, coeffs[0], p), mask, p) == Masked(coeffs, x, mask, p)
  {
    hide Masked;
    SelfHolds(coeffs[0], p);
    var s := Inners(coeffs, x, 0, |coeffs| - 1);
    HoldsPlus(v, s, coeffs[0], coeffs[0], p);
    forall i | 0 <= i < |x| ensures Plus(s, coeffs[0])[i] == Interpolate.Eval(Column(coeffs, i), x[i]) {
      var c := Column(coeffs, i);
      Block(c, x[i], 0, |c| - 1);
      PrefixIsEval(c, x[i], |c|);
      assert c[..|c|] == c;
    }
    IsMasked(Slots.Add(v, coeffs[0], p), Plus(s, coeffs[0]), coeffs, x, mask, p);
  }

  lemma HoldsLength(v: Slots.Vec, coeffs: seq<Slots.Vec>, x: Slots.Vec, n: nat, p: int)
    requires p > 0 && Shaped(coeffs, x) && n < |coeffs| && Holds(v, Inners(coeffs, x, 0, n), p)
    ensures |v| == |x|
  {
  }

  lemma SmallMod(a: nat, b: nat)
    requires a < b
    ensures a % b == a
  {
    DivModUnique(a, 0, a, b);
  }

  // ---------- From the computed powers to the reply ----------

  /** The powers as `parallel_apply` leaves them: targets at the first level, not in NTT form. */
  ghost predicate Computed(powers: seq<Ciphertext>, targets: seq<nat>, x: Slots.Vec, first: nat, p: int)
    requires p > 0
  {
    forall j :: 1 <= j < |powers| ==>
      powers[j] == if j in targets then Ciphertext(Slots.Power(x, j, p), false, first) else Unset
  }

  /** The target powers the query uses: all of them without Paterson-Stockmeyer, else the low powers
      and the multiples of l+1. */
  ghost predicate TargetsFor(targets: seq<nat>, l: nat, max: nat) {
    forall n :: n in targets <==> 1 <= n <= max && IsTarget(n, l)
  }

  ghost predicate IsTarget(n: nat, l: nat) {
    l == 0 || n <= l || n % (l + 1) == 0
  }

  /** The second half of `ComputePowers`. Its tasks touch one power each. */
  method FormPowers(computed: seq<Ciphertext>, targets: seq<nat>, psLowDegree: nat, first: nat, p: int,
                    ghost x: Slots.Vec) returns (powers: seq<Ciphertext>)
    requires p > 0 && |computed| > 0 && Computed(computed, targets, x, first, p)
    requires TargetsFor(targets, psLowDegree, |computed| - 1)
    requires forall i, j :: 0 <= i < j < |targets| ==> targets[i] != targets[j]
    ensures |powers| == |computed| && Prepared(powers, x, first, psLowDegree, p)
  {
    var high, low := ChainLevel(first, 1), ChainLevel(first, 2);
    powers := computed;
    for i := 0 to |targets|
      invariant |powers| == |computed|
      invariant forall n :: n in targets[..i] ==>
                  n in targets && 1 <= n < |powers| && powers[n] == PreparedPower(x, first, psLowDegree, n, p)
      invariant forall j :: 1 <= j < |powers| && j !in targets[..i] ==> powers[j] == computed[j]
    {
      var n := targets[i];
      assert n in targets && n !in targets[..i];
      assert targets[..i + 1] == targets[..i] + [n];
      var c := powers[n];
      if psLowDegree == 0 {
        c := ModSwitchTo(c, high).Extract();
        c := ToNtt(c).Extract();
      } else if n <= psLowDegree {
        c := ModSwitchTo(c, low).Extract();
        c := ToNtt(c).Extract();
      } else {
        c := ModSwitchTo(c, high).Extract();
      }
      powers := powers[n := c];
    }
    forall j | 1 <= j < |powers| ensures powers[j] == PreparedPower(x, first, psLowDegree, j, p) {
      assert targets[..|targets|] == targets;
    }
  }

  /** The reply for one bin bundle as a value: there is none if a power is missing or, with ps_low_degree == 1,
      for polynomials of degree 2 or more. */
  ghost function Reply(coeffs: seq<Slots.Vec>, x: Slots.Vec, mask: Slots.Vec, count: nat, l: nat, p: int): Result<Ciphertext>
    requires p > 0 && Shaped(coeffs, x) && |mask| == |x|
  {
    if count < 2 || count < |coeffs| || (l == 1 && |coeffs| - 1 >= 2) then InvalidArgument
    else Ok(Ciphertext(Masked(coeffs, x, mask, p), false, 0))
  }

  /** Whichever evaluator is chosen, the reply is the masked value of the polynomials, or the exception. */
  method ProcessBinBundleCache(matching: BatchedPlaintextPolyn, powers: seq<Ciphertext>, psLowDegree: nat,
                               first: nat, mask: Plaintext, p: int, ghost coeffs: seq<Slots.Vec>, ghost x: Slots.Vec)
    returns (r: Result<Ciphertext>)
    requires Operands(matching.batchedCoeffs, powers, coeffs, x, first, psLowDegree, p)
    requires |mask.slots| == |x| && !mask.ntt
    ensures r == Reply(coeffs, x, mask.slots, |powers|, psLowDegree, p)
  {
    var degree := |matching.batchedCoeffs| - 1;
    if psLowDegree > 1 && psLowDegree < degree {
      r := matching.EvaluatePatstock(powers, psLowDegree, first, mask, p, coeffs, x);
    } else {
      r := matching.Evaluate(powers, mask, p, coeffs, x, first, psLowDegree);
    }
  }

  /** A bin with the two elements 1 and 2 modulo 7: with ps_low_degree 1 the query gets no reply, with 2 it does. */
  lemma LowDegreeOneFails()
    ensures var coeffs := Batched([Monic([1, 2], 7)], 1);
            Shaped(coeffs, [3]) && Reply(coeffs, [3], [0], 3, 1, 7) == InvalidArgument
            && Reply(coeffs, [3], [0], 3, 2, 7).Ok?
  {
    MonicShape([1, 2], 7);
  }

  /** What the sender decrypts for a bin: the mask if the query felt is in the bin, something else if
      it is not, and always the mask in the slots beyond the bins. */
  lemma MaskUncoveredIff(bins: seq<seq<int>>, n: nat, x: Slots.Vec, mask: Slots.Vec, p: int, b: nat)
    requires Prime(p) && |bins| <= n == |x| == |mask| && b < n && Felts(x, p) && Felts(mask, p)
    requires forall i :: 0 <= i < |bins| ==> Felts(bins[i], p)
    ensures var polyns := seq(|bins|, i requires 0 <= i < |bins| => Monic(bins[i], p));
            (Masked(Batched(polyns, n), x, mask, p)[b] == mask[b] <==> (b < |bins| ==> x[b] in bins[b]))
  {
    var polyns := seq(|bins|, i requires 0 <= i < |bins| => Monic(bins[i], p));
    BatchedSlot(polyns, n, b, x[b]);
    var v := if b < |bins| then Interpolate.Eval(Monic(bins[b], p), x[b]) else 0;
    assert Masked(Batched(polyns, n), x, mask, p)[b] == (v + mask[b]) % p;
    DivModUnique(mask[b], 0, mask[b], p);
    CongZero(v + mask[b], mask[b], p);
    DivModUnique(0, 0, 0, p);
    if b < |bins| {
      MonicVanishesIff(bins[b], p, x[b]);
    }
  }
}
