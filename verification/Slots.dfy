/** The slots of a batched plaintext or ciphertext: vectors of residues modulo the plain modulus,
    on which the encryption library multiplies and adds slot by slot. */
module Slots {
  import opened ModArith

  type Vec = seq<int>

  function Add(a: Vec, b: Vec, p: int): (r: Vec)
    requires p > 0 && |a| == |b|
    ensures |r| == |a| && forall i :: 0 <= i < |a| ==> r[i] == (a[i] + b[i]) % p
  {
    seq(|a|, i requires 0 <= i < |a| => (a[i] + b[i]) % p)
  }

  function Mul(a: Vec, b: Vec, p: int): (r: Vec)
    requires p > 0 && |a| == |b|
    ensures |r| == |a| && forall i :: 0 <= i < |a| ==> r[i] == (a[i] * b[i]) % p
  {
    seq(|a|, i requires 0 <= i < |a| => (a[i] * b[i]) % p)
  }

  /** Slot by slot n-th power. */
  function Power(x: Vec, n: nat, p: int): (r: Vec)
    requires p > 0
    ensures |r| == |x| && forall i :: 0 <= i < |x| ==> r[i] == Pow(x[i], n) % p
  {
    seq(|x|, i requires 0 <= i < |x| => Pow(x[i], n) % p)
  }

  lemma PowerAdd(x: Vec, m: nat, n: nat, p: int)
    requires p > 0
    ensures Mul(Power(x, m, p), Power(x, n, p), p) == Power(x, m + n, p)
  {
    forall i | 0 <= i < |x|
      ensures Mul(Power(x, m, p), Power(x, n, p), p)[i] == Power(x, m + n, p)[i]
    {
      var a, b := Pow(x[i], m), Pow(x[i], n);
      CongMod(a, p);
      CongMod(b, p);
      CongMul(a % p, a, b % p, b, p);
      PowAdd(x[i], m, n);
    }
  }
}
