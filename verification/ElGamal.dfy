/** Exponential ElGamal with a shared key (elgamal.h): re-encryption, partial decryption and the final test.
    The library's own operations appear by their contract: encryption adds the same multiples that
    re-encryption does, and the homomorphic operations act on both components. */
module ElGamal {
  import opened Group

  datatype CT<G> = CT(X: G, Y: G)

  /** The group and its generator. */
  datatype Params<!G(!new, ==)> = Params(g: Group<G>, gen: G) {
    ghost predicate Valid() { g.Valid() }

    function KeyGen(sk: int): G { g.Mul(sk, gen) }

    function Enc(pk: G, m: int, r: int): CT<G> {
      CT(g.Mul(r, gen), g.add(g.Mul(r, pk), g.Mul(m, gen)))
    }

    function HomoAdd(a: CT<G>, b: CT<G>): CT<G> { CT(g.add(a.X, b.X), g.add(a.Y, b.Y)) }

    function HomoSub(a: CT<G>, b: CT<G>): CT<G> { CT(g.add(a.X, g.neg(b.X)), g.add(a.Y, g.neg(b.Y))) }

    function ScalarMul(a: CT<G>, k: int): CT<G> { CT(g.Mul(k, a.X), g.Mul(k, a.Y)) }

    /** `ReEnc`: fresh randomness on both components. */
    function ReEnc(pk: G, c: CT<G>, r: int): CT<G> {
      CT(g.add(g.Mul(r, gen), c.X), g.add(g.Mul(r, pk), c.Y))
    }

    /** `Dec`: one party's share of the key is taken off. */
    function Dec(sk: int, ct: CT<G>): CT<G> {
      CT(ct.X, g.add(ct.Y, g.neg(g.Mul(sk, ct.X))))
    }

    /** `Get_intersection` */
    predicate GetIntersection(sk: int, ct: CT<G>) { g.Mul(sk, ct.X) == ct.Y }

    /** ct hides m under the secret key `key`. */
    ghost predicate Encrypts(ct: CT<G>, key: int, m: int) {
      ct.Y == g.add(g.Mul(key, ct.X), g.Mul(m, gen))
    }

    lemma Swap(k: int, l: int, a: G)
      requires Valid()
      ensures g.Mul(k, g.Mul(l, a)) == g.Mul(l, g.Mul(k, a))
    {
      hide g.Valid, g.Mul;
      g.MulMul(k, l, a);
      g.MulMul(l, k, a);
      assert k * l == l * k;
    }

    lemma EncCorrect(key: int, m: int, r: int)
      requires Valid()
      ensures Encrypts(Enc(g.Mul(key, gen), m, r), key, m)
    {
      Swap(r, key, gen);
    }

    /** A bare multiple of the generator: no randomness, any key. */
    lemma PlainCorrect(key: int, m: int)
      requires Valid()
      ensures Encrypts(CT(g.zero, g.Mul(m, gen)), key, m)
    {
      hide g.Valid, g.Mul;
      g.MulZero(key);
      g.Laws(g.Mul(m, gen), g.zero, g.zero);
    }

    lemma AddCorrect(a: CT<G>, b: CT<G>, key: int, m: int, n: int)
      requires Valid() && Encrypts(a, key, m) && Encrypts(b, key, n)
      ensures Encrypts(HomoAdd(a, b), key, m + n)
    {
      hide g.Valid, g.Mul;
      g.MulSum(key, a.X, b.X);
      g.MulAdd(m, n, gen);
      g.Interchange(g.Mul(key, a.X), g.Mul(m, gen), g.Mul(key, b.X), g.Mul(n, gen));
    }

    lemma NegCorrect(b: CT<G>, key: int, n: int)
      requires Valid() && Encrypts(b, key, n)
      ensures Encrypts(CT(g.neg(b.X), g.neg(b.Y)), key, -n)
    {
      hide g.Valid, g.Mul;
      g.NegAdd(g.Mul(key, b.X), g.Mul(n, gen));
      g.MulNeg(n, gen);
      NegInside(key, b.X);
    }

    lemma NegInside(k: int, a: G)
      requires Valid()
      ensures g.Mul(k, g.neg(a)) == g.neg(g.Mul(k, a))
    {
      hide g.Valid, g.Mul;
      g.MulSum(k, a, g.neg(a));
      g.Laws(a, a, a);
      g.MulZero(k);
      g.NegUnique(g.Mul(k, a), g.Mul(k, g.neg(a)));
    }

    lemma SubCorrect(a: CT<G>, b: CT<G>, key: int, m: int, n: int)
      requires Valid() && Encrypts(a, key, m) && Encrypts(b, key, n)
      ensures Encrypts(HomoSub(a, b), key, m - n)
    {
      hide g.Valid, g.Mul, Encrypts;
      NegCorrect(b, key, n);
      AddCorrect(a, CT(g.neg(b.X), g.neg(b.Y)), key, m, -n);
    }

    lemma ScalarCorrect(a: CT<G>, k: int, key: int, m: int)
      requires Valid() && Encrypts(a, key, m)
      ensures Encrypts(ScalarMul(a, k), key, k * m)
    {
      hide g.Valid, g.Mul;
      g.MulSum(k, g.Mul(key, a.X), g.Mul(m, gen));
      Swap(k, key, a.X);
      g.MulMul(k, m, gen);
    }

    lemma ReEncCorrect(c: CT<G>, r: int, key: int, m: int)
      requires Valid() && Encrypts(c, key, m)
      ensures Encrypts(ReEnc(g.Mul(key, gen), c, r), key, m)
    {
      hide g.Valid, g.Mul;
      Swap(r, key, gen);
      g.MulSum(key, g.Mul(r, gen), c.X);
      g.Laws(g.Mul(key, g.Mul(r, gen)), g.Mul(key, c.X), g.Mul(m, gen));
    }

    lemma DecCorrect(ct: CT<G>, sk: int, key: int, m: int)
      requires Valid() && Encrypts(ct, key, m)
      ensures Encrypts(Dec(sk, ct), key - sk, m)
    {
      hide g.Valid, g.Mul;
      var x, y, z := g.Mul(key, ct.X), g.Mul(m, gen), g.neg(g.Mul(sk, ct.X));
      g.MulNeg(sk, ct.X);
      g.MulAdd(key, -sk, ct.X);
      g.Laws(x, y, z);
      g.Laws(y, z, z);
      g.Laws(x, z, y);
    }

    /** With the last key share the test tells whether the plaintext is a multiple of the generator's order. */
    lemma TestCorrect(ct: CT<G>, sk: int, m: int)
      requires Valid() && Encrypts(ct, sk, m)
      ensures GetIntersection(sk, ct) <==> g.Mul(m, gen) == g.zero
    {
      hide g.Valid, g.Mul;
      var x, y := g.Mul(sk, ct.X), g.Mul(m, gen);
      g.Laws(x, y, y);
      g.Cancels(y, x);
      g.Laws(y, x, x);
      g.Laws(x, x, x);
    }
  }

  function SumPoints<G(!new, ==)>(params: Params<G>, pks: seq<G>): G
    requires pks != []
  {
    if |pks| == 1 then pks[0] else params.g.add(SumPoints(params, pks[..|pks| - 1]), pks[|pks| - 1])
  }

  /** `Get_pk_HE`: the sum of the first num public keys. */
  method GetPkHE<G(!new, ==)>(params: Params<G>, pkOther: seq<G>, num: nat) returns (y: G)
    requires 0 < num <= |pkOther|
    ensures y == SumPoints(params, pkOther[..num])
  {
    y := pkOther[0];
    for i := 1 to num
      invariant y == SumPoints(params, pkOther[..i])
    {
      assert pkOther[..i + 1][..i] == pkOther[..i];
      y := params.g.add(y, pkOther[i]);
    }
  }
}
