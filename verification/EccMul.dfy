/** Variable-base scalar multiplication (`ecc_precomp` and `ecc_mul` in eccp2.c): a table of eight sums of the
    base point and its endomorphism images, and a double-and-add loop over the signed digits. The two
    endomorphisms are arbitrary functions here: only their values at the base point matter. */
module EccMul {
  import opened Words
  import opened BinarySums
  import opened GlvRecode
  import opened Decomposition
  import opened Group
  import opened Lattice
  import opened ModArith
  import opened Montgomery

  /** a*P + b*Q + c*R + d*S */
  ghost function Combination<G(!new)>(g: Group<G>, p: seq<G>, c: seq<int>): G
    requires |p| == |c| == 4
  {
    g.add(g.add(g.add(g.Mul(c[0], p[0]), g.Mul(c[1], p[1])), g.Mul(c[2], p[2])), g.Mul(c[3], p[3]))
  }

  lemma CombinationAdd<G(!new)>(g: Group<G>, p: seq<G>, c: seq<int>, d: seq<int>, e: seq<int>)
    requires g.Valid() && |p| == |c| == |d| == |e| == 4 && forall j :: 0 <= j < 4 ==> e[j] == c[j] + d[j]
    ensures g.add(Combination(g, p, c), Combination(g, p, d)) == Combination(g, p, e)
  {
    hide g.Valid, g.Mul;
    forall j | 0 <= j < 4
      ensures g.Mul(e[j], p[j]) == g.add(g.Mul(c[j], p[j]), g.Mul(d[j], p[j]))
    {
      g.MulAdd(c[j], d[j], p[j]);
    }
    var c01, d01 := g.add(g.Mul(c[0], p[0]), g.Mul(c[1], p[1])), g.add(g.Mul(d[0], p[0]), g.Mul(d[1], p[1]));
    var c012, d012 := g.add(c01, g.Mul(c[2], p[2])), g.add(d01, g.Mul(d[2], p[2]));
    g.Interchange(g.Mul(c[0], p[0]), g.Mul(c[1], p[1]), g.Mul(d[0], p[0]), g.Mul(d[1], p[1]));
    g.Interchange(c01, g.Mul(c[2], p[2]), d01, g.Mul(d[2], p[2]));
    g.Interchange(c012, g.Mul(c[3], p[3]), d012, g.Mul(d[3], p[3]));
  }

  lemma CombinationNeg<G(!new)>(g: Group<G>, p: seq<G>, c: seq<int>, d: seq<int>)
    requires g.Valid() && |p| == |c| == |d| == 4 && forall j :: 0 <= j < 4 ==> d[j] == -c[j]
    ensures g.neg(Combination(g, p, c)) == Combination(g, p, d)
  {
    hide g.Valid, g.Mul;
    forall j | 0 <= j < 4
      ensures g.Mul(d[j], p[j]) == g.neg(g.Mul(c[j], p[j]))
    {
      g.MulNeg(c[j], p[j]);
    }
    var c01 := g.add(g.Mul(c[0], p[0]), g.Mul(c[1], p[1]));
    var c012 := g.add(c01, g.Mul(c[2], p[2]));
    g.NegAdd(g.Mul(c[0], p[0]), g.Mul(c[1], p[1]));
    g.NegAdd(c01, g.Mul(c[2], p[2]));
    g.NegAdd(c012, g.Mul(c[3], p[3]));
  }

  /** The weights of table index d. */
  function Weights(d: int): (r: seq<int>)
    ensures |r| == 4
  {
    [Weight(d, 0), Weight(d, 1), Weight(d, 2), Weight(d, 3)]
  }

  ghost predicate IsTable<G(!new)>(g: Group<G>, p: seq<G>, t: seq<G>)
    requires |p| == 4
  {
    |t| == 8 && forall d :: 0 <= d < 8 ==> t[d] == Combination(g, p, Weights(d))
  }

  /** The base point and its images, in the order the sub-scalars belong to them. */
  function Images<G>(P: G, phi: G -> G, psi: G -> G): (r: seq<G>)
    ensures |r| == 4
  {
    [P, phi(P), psi(P), psi(phi(P))]
  }

  lemma {:induction false} TableEntry<G(!new)>(g: Group<G>, p: seq<G>, a: int, j: nat, b: int)
    requires g.Valid() && |p| == 4 && 0 <= a < 8 && 0 <= b < 8 && 1 <= j < 4
    requires forall i :: 0 <= i < 4 ==> Weights(b)[i] == Weights(a)[i] + if i == j then 1 else 0
    ensures g.add(Combination(g, p, Weights(a)), p[j]) == Combination(g, p, Weights(b))
  {
    hide g.Valid, g.Mul;
    var one := [0, 0, 0, 0][j := 1];
    CombinationAdd(g, p, Weights(a), one, Weights(b));
    g.MulSmall(p[0]);
    g.MulSmall(p[1]);
    g.MulSmall(p[2]);
    g.MulSmall(p[3]);
    g.Laws(g.zero, g.zero, g.zero);
    g.Laws(p[j], g.zero, g.zero);
  }

  method EccPrecomp<G(!new)>(g: Group<G>, P: G, phi: G -> G, psi: G -> G, T: array<G>)
    requires g.Valid() && T.Length == 8
    modifies T
    ensures IsTable(g, Images(P, phi, psi), T[..])
  {
    hide g.Valid, Combination;
    ghost var p := Images(P, phi, psi);
    var Q := phi(P);
    var S := psi(Q);
    T[0] := P;
    var R := psi(P);
    T[1] := g.add(T[0], Q);
    T[2] := g.add(T[0], R);
    T[3] := g.add(T[1], R);
    T[4] := g.add(T[0], S);
    T[5] := g.add(T[1], S);
    T[6] := g.add(T[2], S);
    T[7] := g.add(T[3], S);
    FirstEntry(g, p);
    TableEntry(g, p, 0, 1, 1);
    TableEntry(g, p, 0, 2, 2);
    TableEntry(g, p, 1, 2, 3);
    TableEntry(g, p, 0, 3, 4);
    TableEntry(g, p, 1, 3, 5);
    TableEntry(g, p, 2, 3, 6);
    TableEntry(g, p, 3, 3, 7);
  }

  lemma FirstEntry<G(!new)>(g: Group<G>, p: seq<G>)
    requires g.Valid() && |p| == 4
    ensures Combination(g, p, Weights(0)) == p[0]
  {
    hide g.Valid, g.Mul;
    g.MulSmall(p[0]);
    g.MulSmall(p[1]);
    g.MulSmall(p[2]);
    g.MulSmall(p[3]);
    g.Laws(p[0], g.zero, g.zero);
  }

  /** The entry for a digit, negated when the mask is 0 (`table_lookup_1x8`). */
  function Lookup<G(!new)>(g: Group<G>, t: seq<G>, digit: int, mask: int): G
    requires |t| == 8 && 0 <= digit < 8
  {
    if mask == ALL_ONES then t[digit] else g.neg(t[digit])
  }

  /** What digits i, i+1, ... stand for, in each of the four sub-scalars. */
  ghost function Upper(digits: seq<int>, masks: seq<int>, i: nat): (r: seq<int>)
    requires |digits| == |masks| == 65 && i <= 65
    ensures |r| == 4
  {
    [Expansion(Signed(digits, masks, 0), i, 65 - i), Expansion(Signed(digits, masks, 1), i, 65 - i),
     Expansion(Signed(digits, masks, 2), i, 65 - i), Expansion(Signed(digits, masks, 3), i, 65 - i)]
  }

  lemma UpperNext(digits: seq<int>, masks: seq<int>, i: nat, j: nat)
    requires |digits| == |masks| == 65 && i < 65 && j < 4
    ensures Upper(digits, masks, i)[j] == Sign(masks[i]) * Weight(digits[i], j) + 2 * Upper(digits, masks, i + 1)[j]
  {
    ExpansionFront(Signed(digits, masks, j), i, 65 - i);
  }

  /** Doubling and adding one looked-up point takes in one more digit. */
  lemma DoubleAndAdd<G(!new)>(g: Group<G>, p: seq<G>, t: seq<G>, digits: seq<int>, masks: seq<int>, i: nat, x: G)
    requires g.Valid() && |p| == 4 && IsTable(g, p, t) && |digits| == |masks| == 65 && i < 65
    requires 0 <= digits[i] < 8
    requires x == Combination(g, p, Upper(digits, masks, i + 1))
    ensures g.add(g.add(x, x), Lookup(g, t, digits[i], masks[i])) == Combination(g, p, Upper(digits, masks, i))
  {
    hide g.Valid, Combination, Upper, Weight;
    var up := Upper(digits, masks, i + 1);
    var twice := [2 * up[0], 2 * up[1], 2 * up[2], 2 * up[3]];
    CombinationAdd(g, p, up, up, twice);
    var w := Weights(digits[i]);
    var signed := if masks[i] == ALL_ONES then w else [-w[0], -w[1], -w[2], -w[3]];
    if masks[i] != ALL_ONES {
      CombinationNeg(g, p, w, signed);
    }
    UpperNext(digits, masks, i, 0);
    UpperNext(digits, masks, i, 1);
    UpperNext(digits, masks, i, 2);
    UpperNext(digits, masks, i, 3);
    CombinationAdd(g, p, twice, signed, Upper(digits, masks, i));
  }

  lemma NoDigits<G(!new)>(g: Group<G>, p: seq<G>, digits: seq<int>, masks: seq<int>, l: G)
    requires g.Valid() && |p| == 4 && |digits| == |masks| == 65
    ensures Combination(g, p, Upper(digits, masks, 65)) == g.zero && g.add(g.add(g.zero, g.zero), l) == l
  {
    hide g.Valid, g.Mul;
    g.MulSmall(p[0]);
    g.MulSmall(p[1]);
    g.MulSmall(p[2]);
    g.MulSmall(p[3]);
    g.Laws(g.zero, g.zero, g.zero);
    g.Laws(l, l, l);
  }

  /** All 65 digits together are the sub-scalars. */
  lemma AllDigits(s: seq<int>, digits: seq<int>, masks: seq<int>)
    requires |s| == 4 && Recoded(s, digits, masks) && s[0] % 2 == 1
    ensures Upper(digits, masks, 0) == s
  {
  }

  /** 392 is the cofactor of the curve. */
  method CofactorClearing<G(!new)>(g: Group<G>, P: G) returns (R: G)
    requires g.Valid()
    ensures R == g.Mul(392, P)
  {
    hide g.Valid, g.Mul;
    var Q := P;
    g.MulSmall(P);
    R := Double(g, P, P, 1);
    R := g.add(R, Q);
    g.MulAdd(2, 1, P);
    R := Double(g, P, R, 3);
    R := Double(g, P, R, 6);
    R := Double(g, P, R, 12);
    R := Double(g, P, R, 24);
    R := g.add(R, Q);
    g.MulAdd(48, 1, P);
    R := Double(g, P, R, 49);
    R := Double(g, P, R, 98);
    R := Double(g, P, R, 196);
  }

  method Double<G(!new)>(g: Group<G>, ghost P: G, R: G, ghost n: int) returns (R': G)
    requires g.Valid() && R == g.Mul(n, P)
    ensures R' == g.Mul(2 * n, P)
  {
    hide g.Valid, g.Mul;
    g.MulAdd(n, n, P);
    R' := g.add(R, R);
  }

  /** From the top digit down. */
  method Evaluate<G(!new)>(g: Group<G>, ghost p: seq<G>, Table: array<G>, digits: array<int>, signMasks: array<int>, ghost s: seq<int>)
    returns (R: G)
    requires g.Valid() && |p| == |s| == 4 && Table.Length == 8 && IsTable(g, p, Table[..])
    requires digits.Length == signMasks.Length == 65 && Recoded(s, digits[..], signMasks[..]) && s[0] % 2 == 1
    ensures R == Combination(g, p, s)
  {
    hide g.Valid, g.Mul, Combination, Upper, Lookup, IsTable, Signed;
    ghost var ds, ms, t := digits[..], signMasks[..], Table[..];
    NoDigits(g, p, ds, ms, Lookup(g, t, ds[64], ms[64]));
    DoubleAndAdd(g, p, t, ds, ms, 64, g.zero);
    R := Lookup(g, Table[..], digits[64], signMasks[64]);
    for i := 64 downto 0
      invariant R == Combination(g, p, Upper(ds, ms, i))
    {
      DoubleAndAdd(g, p, t, ds, ms, i, R);
      var S := Lookup(g, Table[..], digits[i], signMasks[i]);
      R := g.add(R, R);
      R := g.add(R, S);
    }
    AllDigits(s, ds, ms);
  }

  /** phi and psi act on the multiples of P as the multiplications they are on the prime subgroup. */
  ghost predicate ActsAs<G(!new)>(g: Group<G>, P: G, phi: G -> G, psi: G -> G) {
    && g.Mul(ORDER, P) == g.zero
    && phi(P) == g.Mul(EIGEN_PHI, P)
    && psi(P) == g.Mul(EIGEN_PSI, P)
    && psi(phi(P)) == g.Mul(EIGEN_PSI, phi(P))
  }

  /** Factors that agree modulo the order give the same multiple. */
  lemma SameModOrder<G(!new)>(g: Group<G>, P: G, a: int, b: int, q: int)
    requires g.Valid() && g.Mul(ORDER, P) == g.zero && a == b + q * ORDER
    ensures g.Mul(a, P) == g.Mul(b, P)
  {
    hide g.Valid, g.Mul;
    g.MulMultiple(q, ORDER, P);
    g.MulAdd(b, q * ORDER, P);
    g.Laws(g.Mul(b, P), g.zero, g.zero);
  }

  lemma BothMaps<G(!new)>(g: Group<G>, P: G, phi: G -> G, psi: G -> G)
    requires g.Valid() && ActsAs(g, P, phi, psi)
    ensures psi(phi(P)) == g.Mul(EIGEN_PSI_PHI, P)
  {
    hide g.Valid, g.Mul, Cong;
    EigenProduct();
    var q := CongQuotient(EIGEN_PSI * EIGEN_PHI, EIGEN_PSI_PHI, ORDER);
    g.MulMul(EIGEN_PSI, EIGEN_PHI, P);
    SameModOrder(g, P, EIGEN_PSI * EIGEN_PHI, EIGEN_PSI_PHI, q);
  }

  /** A combination of the images is the multiple that its coefficients stand for. */
  lemma CombinationIsMultiple<G(!new)>(g: Group<G>, P: G, phi: G -> G, psi: G -> G, c: seq<int>)
    requires g.Valid() && ActsAs(g, P, phi, psi) && |c| == 4
    ensures Combination(g, Images(P, phi, psi), c) == g.Mul(Pairing(c[0], c[1], c[2], c[3]), P)
  {
    hide g.Valid, g.Mul;
    BothMaps(g, P, phi, psi);
    g.MulMul(c[1], EIGEN_PHI, P);
    g.MulMul(c[2], EIGEN_PSI, P);
    g.MulMul(c[3], EIGEN_PSI_PHI, P);
    var x1 := c[0] + c[1] * EIGEN_PHI;
    var x2 := x1 + c[2] * EIGEN_PSI;
    g.MulAdd(c[0], c[1] * EIGEN_PHI, P);
    g.MulAdd(x1, c[2] * EIGEN_PSI, P);
    g.MulAdd(x2, c[3] * EIGEN_PSI_PHI, P);
  }

  /** The sub-scalars of k combine to k times the point. */
  lemma CombinesToProduct<G(!new)>(g: Group<G>, P: G, phi: G -> G, psi: G -> G, k: seq<int>)
    requires g.Valid() && ActsAs(g, P, phi, psi) && FourWords(k)
    ensures Combination(g, Images(P, phi, psi), SubScalars(k)) == g.Mul(Value(k), P)
  {
    hide g.Valid, g.Mul, Combination, Images, SubScalars, Pairing, ActsAs, Value;
    var s := SubScalars(k);
    CombinationIsMultiple(g, P, phi, psi, s);
    var q := SubScalarsStandFor(k);
    assert g.Mul(ORDER, P) == g.zero by { Annihilates(g, P, phi, psi); }
    SameModOrder(g, P, Pairing(s[0], s[1], s[2], s[3]), Value(k), q);
  }

  lemma Annihilates<G(!new)>(g: Group<G>, P: G, phi: G -> G, psi: G -> G)
    requires ActsAs(g, P, phi, psi)
    ensures g.Mul(ORDER, P) == g.zero
  {
  }

  /** The product of the base point with a 256-bit scalar, through its four sub-scalars. The result is written
      only when the base point passes validation. */
  method EccMul<G(!new)>(g: Group<G>, P: G, k: seq<int>, phi: G -> G, psi: G -> G, validate: G -> bool,
      clearCofactor: bool, previous: G) returns (ok: bool, Q: G)
    requires g.Valid() && FourWords(k)
    ensures ok == validate(P)
    ensures !ok ==> Q == previous
    ensures ok ==> var base := if clearCofactor then g.Mul(392, P) else P;
                   && Q == Combination(g, Images(base, phi, psi), SubScalars(k))
                   && (ActsAs(g, base, phi, psi) ==> Q == g.Mul(Value(k), base))
  {
    hide g.Valid, g.Mul, Combination, SubScalars, Recoded, IsTable, ActsAs;
    var R := P;
    var s := Decompose(k);
    FirstIsOdd(k);
    if !validate(R) {
      return false, previous;
    }
    if clearCofactor {
      R := CofactorClearing(g, R);
    }
    ghost var p := Images(R, phi, psi);
    var scalars := new int[4](j requires 0 <= j < 4 => s[j]);
    var digits, signMasks := new int[65](_ => 0), new int[65](_ => 0);
    assert scalars[..] == s;
    Recode(scalars, digits, signMasks);
    var Table := new G[8](_ => R);
    EccPrecomp(g, R, phi, psi, Table);
    ghost var base := R;
    R := Evaluate(g, p, Table, digits, signMasks, s);
    if ActsAs(g, base, phi, psi) {
      CombinesToProduct(g, base, phi, psi, k);
    }
    return true, R;
  }
}
