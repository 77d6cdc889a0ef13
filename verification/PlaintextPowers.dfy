/** The sender's source powers (plaintext_powers.cpp): every slot raised to the source exponents by repeated
    squaring, in place. */
module PlaintextPowers {
  import opened Exceptions
  import opened ModArith
  import Slots

  /** Multiplying and squaring the remaining exponent's bits away keeps the product. */
  ghost predicate Kept(result: int, value: int, exponent: nat, start: int, whole: nat, p: int)
    requires p > 0
  {
    Cong(result * Pow(value, exponent), Pow(start, whole), p)
  }

  lemma SquareStep(value: int, e: nat)
    ensures Pow(value * value, e) == Pow(value, 2 * e)
  {
    PowMul(value, 2, e);
    assert Pow(value, 2) == value * Pow(value, 1) && Pow(value, 1) == value * Pow(value, 0);
  }

  lemma OddStep(result: int, value: int, e: nat)
    ensures (value * result) * Pow(value, 2 * e) == result * Pow(value, 2 * e + 1)
  {
    assert Pow(value, 2 * e + 1) == value * Pow(value, 2 * e);
    MulAssoc(value, result, Pow(value, 2 * e));
    MulAssoc(result, value, Pow(value, 2 * e));
    assert value * result == result * value;
  }

  /** One round of the loop, on one slot. */
  lemma KeptStep(result: int, value: int, exponent: nat, start: int, whole: nat, p: int)
    requires p > 0 && exponent > 0 && Kept(result, value, exponent, start, whole, p)
    ensures Kept(if exponent % 2 == 1 then (value * result) % p else result, (value * value) % p, exponent / 2, start, whole, p)
  {
    hide Cong;
    var e := exponent / 2;
    var next := if exponent % 2 == 1 then value * result else result;
    SquareStep(value, e);
    if exponent % 2 == 1 {
      OddStep(result, value, e);
      CongMod(value * result, p);
    } else {
      CongRefl(result, p);
    }
    var reduced := if exponent % 2 == 1 then (value * result) % p else result;
    CongMod(value * value, p);
    CongPow((value * value) % p, value * value, e, p);
    CongMul(reduced, next, Pow((value * value) % p, e), Pow(value * value, e), p);
    CongTrans(reduced * Pow((value * value) % p, e), next * Pow(value * value, e), Pow(start, whole), p);
  }

  lemma CongRefl(x: int, p: int)
    requires p > 0
    ensures Cong(x, x, p)
  {
  }

  lemma KeptEnd(result: int, value: int, start: int, whole: nat, p: int)
    requires p > 0 && Kept(result, value, 0, start, whole, p) && 0 <= result < p
    ensures result == Pow(start, whole) % p
  {
    assert Pow(value, 0) == 1;
    CongMod(Pow(start, whole), p);
    CongSmall(result, Pow(start, whole) % p, p);
  }

  class PlaintextPowers {
    const mod: nat
    var powers: map<nat, seq<int>>

    constructor (mod: nat)
      requires mod > 0
      ensures this.mod == mod && powers == map[]
    {
      this.mod := mod;
      powers := map[];
    }

    method SquareArray(a: array<int>)
      requires mod > 0
      modifies a
      ensures forall i :: 0 <= i < a.Length ==> a[i] == (old(a[i]) * old(a[i])) % mod
    {
      for i := 0 to a.Length
        invariant forall k :: 0 <= k < i ==> a[k] == (old(a[k]) * old(a[k])) % mod
        invariant forall k :: i <= k < a.Length ==> a[k] == old(a[k])
      {
        a[i] := (a[i] * a[i]) % mod;
      }
    }

    /** out may be one of the factors. */
    method MultiplyArray(in1: array<int>, out: array<int>)
      requires mod > 0 && in1.Length == out.Length && in1 != out
      modifies out
      ensures forall i :: 0 <= i < out.Length ==> out[i] == (in1[i] * old(out[i])) % mod
    {
      for i := 0 to out.Length
        invariant forall k :: 0 <= k < i ==> out[k] == (in1[k] * old(out[k])) % mod
        invariant forall k :: i <= k < out.Length ==> out[k] == old(out[k])
      {
        out[i] := (in1[i] * out[i]) % mod;
      }
    }

    method ExponentiateArray(start: seq<int>, exponent: nat) returns (r: Result<seq<int>>)
      requires mod > 0
      ensures r == if exponent == 0 then InvalidArgument else Ok(Slots.Power(start, exponent, mod))
    {
      hide Kept, Pow;
      if exponent == 0 {
        return InvalidArgument;
      }
      var values := new int[|start|](i requires 0 <= i < |start| => start[i]);
      var result := new int[|start|](_ => 1);
      var e := exponent;
      KeptStart(start, exponent, mod);
      while e != 0
        invariant e >= 0 && forall i :: 0 <= i < |start| ==> Kept(result[i], values[i], e, start[i], exponent, mod)
        invariant e == 0 ==> forall i :: 0 <= i < |start| ==> 0 <= result[i] < mod
        decreases e
      {
        forall i | 0 <= i < |start|
          ensures Kept(if e % 2 == 1 then (values[i] * result[i]) % mod else result[i],
                       (values[i] * values[i]) % mod, e / 2, start[i], exponent, mod)
        {
          KeptStep(result[i], values[i], e, start[i], exponent, mod);
        }
        if e % 2 == 1 {
          MultiplyArray(values, result);
        }
        SquareArray(values);
        e := e / 2;
      }
      forall i | 0 <= i < |start|
        ensures result[i] == Pow(start[i], exponent) % mod
      {
        KeptEnd(result[i], values[i], start[i], exponent, mod);
      }
      assert result[..] == Slots.Power(start, exponent, mod);
      return Ok(result[..]);
    }

    lemma KeptStart(start: seq<int>, exponent: nat, p: int)
      requires p > 0
      ensures forall i :: 0 <= i < |start| ==> Kept(1, start[i], exponent, start[i], exponent, p)
    {
    }

    /** The powers of the DAG's source nodes, every one the power of the query it is filed under. */
    method ComputePowers(values: seq<int>, sources: seq<nat>)
      requires mod > 0 && forall i :: 0 <= i < |sources| ==> sources[i] > 0
      modifies this
      ensures forall s :: s in powers <==> s in old(powers) || s in sources
      ensures forall s :: s in sources ==> s in powers && powers[s] == Slots.Power(values, s, mod)
      ensures forall s :: s in old(powers) && s !in sources ==> powers[s] == old(powers)[s]
    {
      for n := 0 to |sources|
        invariant forall s :: s in powers <==> s in old(powers) || s in sources[..n]
        invariant forall s :: s in sources[..n] ==> s in powers && powers[s] == Slots.Power(values, s, mod)
        invariant forall s :: s in old(powers) && s !in sources[..n] ==> powers[s] == old(powers)[s]
      {
        var power := ExponentiateArray(values, sources[n]);
        powers := powers[sources[n] := power.Extract()];
        assert sources[..n + 1] == sources[..n] + [sources[n]];
      }
      assert sources[..|sources|] == sources;
    }
  }
}
