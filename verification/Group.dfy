/** An abelian group, standing for the points of the curve under point addition: the curve formulas are
    not part of the model, only that they compute these operations. */
module Group {

  datatype Group<!G(!new)> = Group(add: (G, G) -> G, neg: G -> G, zero: G) {
    ghost predicate Valid() {
      && (forall a, b, c :: add(add(a, b), c) == add(a, add(b, c)))
      && (forall a, b :: add(a, b) == add(b, a))
      && (forall a :: add(a, zero) == a)
      && (forall a :: add(a, neg(a)) == zero)
    }

    lemma Laws(a: G, b: G, c: G)
      requires Valid()
      ensures add(add(a, b), c) == add(a, add(b, c))
      ensures add(a, b) == add(b, a)
      ensures add(a, zero) == a == add(zero, a)
      ensures add(a, neg(a)) == zero == add(neg(a), a)
    {
    }

    /** k-fold sum of a, for k of either sign. */
    function Mul(k: int, a: G): G
      decreases if k < 0 then 1 - k else k
    {
      if k == 0 then zero
      else if k > 0 then add(Mul(k - 1, a), a)
      else add(Mul(k + 1, a), neg(a))
    }

    lemma Cancels(x: G, a: G)
      requires Valid()
      ensures add(add(x, a), neg(a)) == x && add(add(x, neg(a)), a) == x
    {
      hide Valid;
      Laws(x, a, neg(a));
      Laws(x, neg(a), a);
      Laws(a, a, a);
    }

    lemma MulNext(k: int, a: G)
      requires Valid()
      ensures Mul(k + 1, a) == add(Mul(k, a), a) && Mul(k - 1, a) == add(Mul(k, a), neg(a))
    {
      hide Valid;
      Cancels(Mul(k - 1, a), a);
      Cancels(Mul(k + 1, a), a);
    }

    lemma {:induction false} MulAdd(k: int, l: int, a: G)
      requires Valid()
      ensures Mul(k + l, a) == add(Mul(k, a), Mul(l, a))
      decreases if l < 0 then -l else l
    {
      hide Valid;
      if l > 0 {
        MulAdd(k, l - 1, a);
        MulNext(k + l - 1, a);
        Laws(Mul(k, a), Mul(l - 1, a), a);
      } else if l < 0 {
        MulAdd(k, l + 1, a);
        MulNext(k + l + 1, a);
        Laws(Mul(k, a), Mul(l + 1, a), neg(a));
      } else {
        Laws(Mul(k, a), a, a);
      }
    }

    /** Inverses are unique. */
    lemma NegUnique(a: G, b: G)
      requires Valid() && add(a, b) == zero
      ensures b == neg(a)
    {
      hide Valid;
      Cancels(b, a);
      Laws(a, b, a);
      Laws(neg(a), a, a);
    }

    lemma MulNeg(k: int, a: G)
      requires Valid()
      ensures Mul(-k, a) == neg(Mul(k, a))
    {
      hide Valid;
      MulAdd(k, -k, a);
      NegUnique(Mul(k, a), Mul(-k, a));
    }

    lemma MulSmall(a: G)
      requires Valid()
      ensures Mul(0, a) == zero && Mul(1, a) == a && Mul(2, a) == add(a, a)
    {
      hide Valid;
      Laws(a, a, a);
      assert Mul(1, a) == add(Mul(0, a), a);
      assert Mul(2, a) == add(Mul(1, a), a);
    }

    /** Sums of sums, paired up. */
    lemma Interchange(a: G, b: G, c: G, d: G)
      requires Valid()
      ensures add(add(a, b), add(c, d)) == add(add(a, c), add(b, d))
    {
      hide Valid;
      Laws(a, b, add(c, d));
      Laws(b, c, d);
      Laws(c, b, d);
      Laws(a, c, add(b, d));
    }

    lemma NegAdd(a: G, b: G)
      requires Valid()
      ensures neg(add(a, b)) == add(neg(a), neg(b))
    {
      hide Valid;
      Interchange(a, b, neg(a), neg(b));
      Laws(a, a, a);
      Laws(b, b, b);
      Laws(zero, zero, zero);
      NegUnique(add(a, b), add(neg(a), neg(b)));
    }

    lemma {:induction false} MulZero(k: int)
      requires Valid()
      ensures Mul(k, zero) == zero
      decreases if k < 0 then -k else k
    {
      hide Valid;
      Laws(zero, zero, zero);
      if k > 0 {
        MulZero(k - 1);
      } else if k < 0 {
        MulZero(k + 1);
        NegUnique(zero, zero);
      }
    }

    /** Multiples of multiples, for a non-negative outer factor. */
    lemma {:induction false} MulMulNat(k: nat, l: int, a: G)
      requires Valid()
      ensures Mul(k, Mul(l, a)) == Mul(k * l, a)
    {
      hide Valid;
      if k > 0 {
        MulMulNat(k - 1, l, a);
        MulAdd((k - 1) * l, l, a);
        assert (k - 1) * l + l == k * l;
      }
    }

    lemma MulMul(k: int, l: int, a: G)
      requires Valid()
      ensures Mul(k, Mul(l, a)) == Mul(k * l, a)
    {
      hide Valid, Mul;
      if k >= 0 {
        MulMulNat(k, l, a);
      } else {
        MulMulNat(-k, l, a);
        MulNeg(-k, Mul(l, a));
        MulNeg(-k * l, a);
        assert -(-k * l) == k * l;
      }
    }

    /** A multiple of an annihilating factor annihilates too. */
    lemma MulMultiple(q: int, n: int, a: G)
      requires Valid() && Mul(n, a) == zero
      ensures Mul(q * n, a) == zero
    {
      hide Valid, Mul;
      MulMul(q, n, a);
      MulZero(q);
    }

    lemma {:induction false} MulSumNat(k: nat, a: G, b: G)
      requires Valid()
      ensures Mul(k, add(a, b)) == add(Mul(k, a), Mul(k, b))
    {
      hide Valid;
      if k == 0 {
        Laws(zero, zero, zero);
      } else {
        MulSumNat(k - 1, a, b);
        Interchange(Mul(k - 1, a), Mul(k - 1, b), a, b);
      }
    }

    lemma MulSum(k: int, a: G, b: G)
      requires Valid()
      ensures Mul(k, add(a, b)) == add(Mul(k, a), Mul(k, b))
    {
      hide Valid, Mul;
      if k >= 0 {
        MulSumNat(k, a, b);
      } else {
        MulSumNat(-k, a, b);
        MulNeg(-k, add(a, b));
        MulNeg(-k, a);
        MulNeg(-k, b);
        NegAdd(Mul(-k, a), Mul(-k, b));
      }
    }
  }
}
