/** J-PEQT and JP-PEQT (JPEQT.cpp) as values: what each party computes from what it receives, for any number
    of parties, and what party 0 reads off at the end. */
module JPeqt {
  import opened ModArith
  import opened Group
  import opened ElGamal
  import opened Words

  type Vec<G> = seq<CT<G>>

  /** Everything the parties bring: key shares 0..n, inputs and randomness of parties 1..n (at index party-1),
      party 0's inputs e and randomness, and, for JP-PEQT, a permutation for each of parties 1..n. */
  datatype Config<!G(!new, ==)> = Config(
    params: Params<G>, n: nat, bins: nat, sk: seq<int>,
    d: seq<seq<int>>, e: seq<seq<int>>, encR: seq<seq<int>>, reR: seq<int>, alpha: seq<seq<int>>,
    permuting: bool, pi: seq<seq<nat>>)
  {
    ghost predicate Valid() {
      && n >= 1 && |sk| == n + 1 && |reR| == bins
      && |d| == |e| == |encR| == |alpha| == |pi| == n
      && (forall i :: 0 <= i < n ==> |d[i]| == bins && |e[i]| == bins && |encR[i]| == bins && |alpha[i]| == bins)
      && (forall i :: 0 <= i < n ==> IsPermutation(pi[i], bins))
    }
  }

  /** What a shuffle of 0, 1, ..., size-1 gives. */
  ghost predicate IsPermutation(pi: seq<nat>, size: nat) {
    |pi| == size && multiset(pi) == multiset(Identity(size))
  }

  function Identity(size: nat): (r: seq<nat>)
    ensures |r| == size && forall i :: 0 <= i < size ==> r[i] == i
  {
    seq(size, i => i)
  }

  lemma PermutationInRange(pi: seq<nat>, size: nat)
    requires IsPermutation(pi, size)
    ensures forall i :: 0 <= i < size ==> pi[i] < size
  {
    forall i | 0 <= i < size
      ensures pi[i] < size
    {
      assert pi[i] in multiset(pi);
      assert pi[i] in multiset(Identity(size));
      assert pi[i] in Identity(size);
    }
  }

  // ---------- Local computations ----------

  function PublicKey<G(!new, ==)>(c: Config<G>, i: nat): G
    requires c.Valid() && i <= c.n
  {
    c.params.KeyGen(c.sk[i])
  }

  function OtherKeys<G(!new, ==)>(c: Config<G>): (r: seq<G>)
    requires c.Valid()
    ensures |r| == c.n
  {
    seq(c.n, i requires 0 <= i < c.n => PublicKey(c, i + 1))
  }

  /** The shared key, from party 0's own and the received ones. */
  function SharedKey<G(!new, ==)>(c: Config<G>, pkOther: seq<G>): G
    requires c.Valid() && |pkOther| == c.n
  {
    c.params.g.add(PublicKey(c, 0), SumPoints(c.params, pkOther))
  }

  /** Party i's inputs, encrypted. */
  function EncryptedInputs<G(!new, ==)>(c: Config<G>, i: nat, pk: G): (r: Vec<G>)
    requires c.Valid() && 1 <= i <= c.n
    ensures |r| == c.bins && forall j :: 0 <= j < c.bins ==> r[j] == c.params.Enc(pk, c.d[i - 1][j], c.encR[i - 1][j])
  {
    seq(c.bins, j requires 0 <= j < c.bins => c.params.Enc(pk, c.d[i - 1][j], c.encR[i - 1][j]))
  }

  /** sum over the first m rows of column j */
  function ColumnSum(rows: seq<seq<int>>, j: nat, m: nat): int
    requires m <= |rows| && forall i :: 0 <= i < |rows| ==> j < |rows[i]|
  {
    if m == 0 then 0 else ColumnSum(rows, j, m - 1) + rows[m - 1][j]
  }

  function CtSum<G(!new, ==)>(c: Config<G>, cts: seq<Vec<G>>, j: nat, m: nat): CT<G>
    requires m <= |cts| && forall i :: 0 <= i < |cts| ==> j < |cts[i]|
  {
    if m == 0 then CT(c.params.g.zero, c.params.g.zero)
    else c.params.HomoAdd(CtSum(c, cts, j, m - 1), cts[m - 1][j])
  }

  /** The difference of the sums in bin j, re-encrypted. */
  function Difference<G(!new, ==)>(c: Config<G>, pk: G, cts: seq<Vec<G>>, j: nat): CT<G>
    requires c.Valid() && j < c.bins && |cts| == c.n && forall i :: 0 <= i < |cts| ==> |cts[i]| == c.bins
  {
    c.params.ReEnc(pk, c.params.HomoSub(CtSum(c, cts, j, c.n),
      CT(c.params.g.zero, c.params.g.Mul(ColumnSum(c.e, j, c.n), c.params.gen))), c.reR[j])
  }

  function Differences<G(!new, ==)>(c: Config<G>, pk: G, cts: seq<Vec<G>>): (r: Vec<G>)
    requires c.Valid() && |cts| == c.n && forall i :: 0 <= i < |cts| ==> |cts[i]| == c.bins
    ensures |r| == c.bins && forall j :: 0 <= j < c.bins ==> r[j] == Difference(c, pk, cts, j)
  {
    seq(c.bins, j requires 0 <= j < c.bins => Difference(c, pk, cts, j))
  }

  function Scaled<G(!new, ==)>(c: Config<G>, i: nat, ct: Vec<G>): (r: Vec<G>)
    requires c.Valid() && 1 <= i <= c.n && |ct| == c.bins
    ensures |r| == c.bins && forall j :: 0 <= j < c.bins ==> r[j] == c.params.ScalarMul(ct[j], c.alpha[i - 1][j])
  {
    seq(c.bins, j requires 0 <= j < c.bins => c.params.ScalarMul(ct[j], c.alpha[i - 1][j]))
  }

  function Map<A, B>(f: A -> B, s: seq<A>): (r: seq<B>)
    ensures |r| == |s| && forall j :: 0 <= j < |s| ==> r[j] == f(s[j])
  {
    seq(|s|, j requires 0 <= j < |s| => f(s[j]))
  }

  function Decrypted<G(!new, ==)>(c: Config<G>, i: nat, ct: Vec<G>): (r: Vec<G>)
    requires c.Valid() && i <= c.n
    ensures |r| == |ct|
  {
    Map(x => c.params.Dec(c.sk[i], x), ct)
  }

  /** `permute`: entry i becomes entry pi[i] of the old vector. */
  function Permuted<T>(pi: seq<nat>, ct: seq<T>): (r: seq<T>)
    requires IsPermutation(pi, |ct|)
    ensures |r| == |ct|
  {
    PermutationInRange(pi, |ct|);
    seq(|ct|, i requires 0 <= i < |ct| => ct[pi[i]])
  }

  /** The return step of party i: decrypt, and in JP-PEQT permute. */
  function Returned<G(!new, ==)>(c: Config<G>, i: nat, ct: Vec<G>): (r: Vec<G>)
    requires c.Valid() && 1 <= i <= c.n && |ct| == c.bins
    ensures |r| == c.bins
  {
    if c.permuting then Permuted(c.pi[i - 1], Decrypted(c, i, ct)) else Decrypted(c, i, ct)
  }

  function Answers<G(!new, ==)>(c: Config<G>, ct: Vec<G>): (r: seq<bool>)
    requires c.Valid()
    ensures |r| == |ct|
  {
    Map(x => c.params.GetIntersection(c.sk[0], x), ct)
  }

  // ---------- The loops that do these computations ----------

  method CombineAtPartyZero<G(!new, ==)>(c: Config<G>, pk: G, ctD: seq<Vec<G>>) returns (ct: Vec<G>)
    requires c.Valid() && |ctD| == c.n && forall i :: 0 <= i < |ctD| ==> |ctD[i]| == c.bins
    ensures ct == Differences(c, pk, ctD)
  {
    var E := seq(c.bins, _ => 0);
    for j := 0 to c.bins
      invariant |E| == c.bins && forall k :: 0 <= k < j ==> E[k] == ColumnSum(c.e, k, c.n)
      invariant forall k :: j <= k < c.bins ==> E[k] == 0
    {
      for i := 0 to c.n
        invariant |E| == c.bins && E[j] == ColumnSum(c.e, j, i)
        invariant forall k :: 0 <= k < j ==> E[k] == ColumnSum(c.e, k, c.n)
        invariant forall k :: j < k < c.bins ==> E[k] == 0
      {
        E := E[j := E[j] + c.e[i][j]];
      }
    }
    var zero := c.params.g.zero;
    var D := seq(c.bins, _ => CT(zero, zero));
    for j := 0 to c.bins
      invariant |D| == c.bins && forall k :: 0 <= k < j ==> D[k] == CtSum(c, ctD, k, c.n)
      invariant forall k :: j <= k < c.bins ==> D[k] == CT(zero, zero)
    {
      for i := 0 to c.n
        invariant |D| == c.bins && D[j] == CtSum(c, ctD, j, i)
        invariant forall k :: 0 <= k < j ==> D[k] == CtSum(c, ctD, k, c.n)
        invariant forall k :: j < k < c.bins ==> D[k] == CT(zero, zero)
      {
        D := D[j := c.params.HomoAdd(D[j], ctD[i][j])];
      }
    }
    ct := [];
    for j := 0 to c.bins
      invariant |ct| == j && forall k :: 0 <= k < j ==> ct[k] == Difference(c, pk, ctD, k)
    {
      var eHe := CT(zero, c.params.g.Mul(E[j], c.params.gen));
      ct := ct + [c.params.ReEnc(pk, c.params.HomoSub(D[j], eHe), c.reR[j])];
    }
  }

  method Permute<T>(pi: seq<nat>, ct: seq<T>) returns (res: seq<T>)
    requires IsPermutation(pi, |ct|)
    ensures res == Permuted(pi, ct)
  {
    PermutationInRange(pi, |ct|);
    res := ct;
    for i := 0 to |pi|
      invariant |res| == |ct| && forall k :: 0 <= k < i ==> res[k] == ct[pi[k]]
    {
      res := res[i := ct[pi[i]]];
    }
  }

  /** The scan of party 0: the indices that pass the test, in order. */
  method GetMatches<G(!new, ==)>(c: Config<G>, ct: Vec<G>) returns (mIdx: seq<nat>)
    requires c.Valid()
    ensures forall j :: j in mIdx <==> 0 <= j < |ct| && Answers(c, ct)[j]
    ensures |mIdx| == multiset(Answers(c, ct))[true]
  {
    mIdx := [];
    for i := 0 to |ct|
      invariant forall j :: j in mIdx <==> 0 <= j < i && Answers(c, ct)[j]
      invariant |mIdx| == multiset(Answers(c, ct)[..i])[true]
    {
      assert Answers(c, ct)[..i + 1] == Answers(c, ct)[..i] + [Answers(c, ct)[i]];
      if c.params.GetIntersection(c.sk[0], ct[i]) {
        mIdx := mIdx + [i];
      }
    }
    assert Answers(c, ct)[..|ct|] == Answers(c, ct);
  }

  // ---------- The whole protocol ----------

  function PkHE<G(!new, ==)>(c: Config<G>): G
    requires c.Valid()
  {
    SharedKey(c, OtherKeys(c))
  }

  function InputCts<G(!new, ==)>(c: Config<G>): (r: seq<Vec<G>>)
    requires c.Valid()
    ensures |r| == c.n && forall i :: 0 <= i < c.n ==> r[i] == EncryptedInputs(c, i + 1, PkHE(c)) && |r[i]| == c.bins
  {
    seq(c.n, i requires 0 <= i < c.n => EncryptedInputs(c, i + 1, PkHE(c)))
  }

  /** What party p sends on to party p+1. */
  function Forward<G(!new, ==)>(c: Config<G>, p: nat): (r: Vec<G>)
    requires c.Valid() && p <= c.n
    ensures |r| == c.bins
  {
    if p == 0 then Differences(c, PkHE(c), InputCts(c)) else Scaled(c, p, Forward(c, p - 1))
  }

  /** What party p sends back to party p-1. */
  function Back<G(!new, ==)>(c: Config<G>, p: nat): (r: Vec<G>)
    requires c.Valid() && 1 <= p <= c.n
    ensures |r| == c.bins
    decreases c.n - p
  {
    Returned(c, p, if p == c.n then Forward(c, c.n) else Back(c, p + 1))
  }

  /** Bin by bin, what party 0 decides. */
  function Outcome<G(!new, ==)>(c: Config<G>): (r: seq<bool>)
    requires c.Valid()
    ensures |r| == c.bins
  {
    Answers(c, Back(c, 1))
  }

  // ---------- What the outcome means ----------

  /** The sum of the first m key shares. */
  function KeySum(sk: seq<int>, m: nat): int
    requires m <= |sk|
  {
    if m == 0 then 0 else KeySum(sk, m - 1) + sk[m - 1]
  }

  lemma {:induction false} OtherKeysSum<G(!new)>(c: Config<G>, m: nat)
    requires c.Valid() && c.params.Valid() && 1 <= m <= c.n
    ensures SumPoints(c.params, OtherKeys(c)[..m]) == c.params.g.Mul(KeySum(c.sk, m + 1) - c.sk[0], c.params.gen)
  {
    hide Group<G>.Valid, Group<G>.Mul;
    var ks := OtherKeys(c);
    if m > 1 {
      OtherKeysSum(c, m - 1);
      assert ks[..m][..m - 1] == ks[..m - 1];
      c.params.g.MulAdd(KeySum(c.sk, m) - c.sk[0], c.sk[m], c.params.gen);
    } else {
      assert KeySum(c.sk, 2) == KeySum(c.sk, 1) + c.sk[1] && KeySum(c.sk, 1) == KeySum(c.sk, 0) + c.sk[0];
    }
  }

  lemma SharedKeyIsSum<G(!new)>(c: Config<G>)
    requires c.Valid() && c.params.Valid()
    ensures PkHE(c) == c.params.g.Mul(KeySum(c.sk, c.n + 1), c.params.gen)
  {
    hide Group<G>.Valid, Group<G>.Mul;
    OtherKeysSum(c, c.n);
    assert OtherKeys(c)[..c.n] == OtherKeys(c);
    c.params.g.MulAdd(c.sk[0], KeySum(c.sk, c.n + 1) - c.sk[0], c.params.gen);
  }

  /** The difference of the sums in bin j, times the first p blinding factors. */
  function Plain<G(!new, ==)>(c: Config<G>, j: nat, p: nat): int
    requires c.Valid() && j < c.bins && p <= c.n
  {
    if p == 0 then ColumnSum(c.d, j, c.n) - ColumnSum(c.e, j, c.n) else c.alpha[p - 1][j] * Plain(c, j, p - 1)
  }

  lemma {:induction false} InputsSum<G(!new)>(c: Config<G>, j: nat, m: nat)
    requires c.Valid() && c.params.Valid() && j < c.bins && m <= c.n
    ensures c.params.Encrypts(CtSum(c, InputCts(c), j, m), KeySum(c.sk, c.n + 1), ColumnSum(c.d, j, m))
  {
    hide Group<G>.Valid, Group<G>.Mul, Params<G>.Encrypts, Params<G>.Enc, Params<G>.HomoAdd, PkHE;
    var key := KeySum(c.sk, c.n + 1);
    if m == 0 {
      c.params.PlainCorrect(key, 0);
      c.params.g.MulSmall(c.params.gen);
    } else {
      InputsSum(c, j, m - 1);
      SharedKeyIsSum(c);
      c.params.EncCorrect(key, c.d[m - 1][j], c.encR[m - 1][j]);
      c.params.AddCorrect(CtSum(c, InputCts(c), j, m - 1), InputCts(c)[m - 1][j], key, ColumnSum(c.d, j, m - 1), c.d[m - 1][j]);
    }
  }

  lemma {:induction false} ForwardEncrypts<G(!new)>(c: Config<G>, j: nat, p: nat)
    requires c.Valid() && c.params.Valid() && j < c.bins && p <= c.n
    ensures c.params.Encrypts(Forward(c, p)[j], KeySum(c.sk, c.n + 1), Plain(c, j, p))
  {
    hide Group<G>.Valid, Group<G>.Mul, Params<G>.Encrypts, Params<G>.ReEnc, Params<G>.HomoSub, Params<G>.ScalarMul, CtSum, PkHE;
    var key := KeySum(c.sk, c.n + 1);
    if p == 0 {
      InputsSum(c, j, c.n);
      SharedKeyIsSum(c);
      var e := ColumnSum(c.e, j, c.n);
      c.params.PlainCorrect(key, e);
      var sum := CtSum(c, InputCts(c), j, c.n);
      c.params.SubCorrect(sum, CT(c.params.g.zero, c.params.g.Mul(e, c.params.gen)), key, ColumnSum(c.d, j, c.n), e);
      c.params.ReEncCorrect(c.params.HomoSub(sum, CT(c.params.g.zero, c.params.g.Mul(e, c.params.gen))), c.reR[j], key, Plain(c, j, 0));
    } else {
      ForwardEncrypts(c, j, p - 1);
      c.params.ScalarCorrect(Forward(c, p - 1)[j], c.alpha[p - 1][j], key, Plain(c, j, p - 1));
    }
  }

  /** On the way back every party takes its share of the key off. */
  lemma {:induction false} BackEncrypts<G(!new)>(c: Config<G>, j: nat, p: nat)
    requires c.Valid() && c.params.Valid() && !c.permuting && j < c.bins && 1 <= p <= c.n
    ensures c.params.Encrypts(Back(c, p)[j], KeySum(c.sk, p), Plain(c, j, c.n))
    decreases c.n - p
  {
    hide Group<G>.Valid, Group<G>.Mul, Params<G>.Encrypts, Params<G>.Dec, Forward, Plain;
    var before := if p == c.n then Forward(c, c.n) else Back(c, p + 1);
    if p == c.n {
      ForwardEncrypts(c, j, c.n);
    } else {
      BackEncrypts(c, j, p + 1);
    }
    c.params.DecCorrect(before[j], c.sk[p], KeySum(c.sk, p + 1), Plain(c, j, c.n));
  }

  /** The test succeeds on bin j exactly when the blinded difference is a multiple of the generator's order. */
  lemma OutcomeIsZeroTest<G(!new)>(c: Config<G>, j: nat)
    requires c.Valid() && c.params.Valid() && !c.permuting && j < c.bins
    ensures Outcome(c)[j] <==> c.params.g.Mul(Plain(c, j, c.n), c.params.gen) == c.params.g.zero
  {
    hide Group<G>.Valid, Group<G>.Mul, Params<G>.Encrypts, Params<G>.GetIntersection, Back, Plain;
    BackEncrypts(c, j, 1);
    assert KeySum(c.sk, 1) == KeySum(c.sk, 0) + c.sk[0];
    c.params.TestCorrect(Back(c, 1)[j], c.sk[0], Plain(c, j, c.n));
  }

  /** The generator generates a group of this order. */
  ghost predicate HasOrder<G(!new)>(params: Params<G>, order: int) {
    order > 0 && forall k {:trigger params.g.Mul(k, params.gen)} :: params.g.Mul(k, params.gen) == params.g.zero <==> k % order == 0
  }

  lemma {:induction false} BlindingKeepsNonZero<G(!new)>(c: Config<G>, j: nat, p: nat, order: int)
    requires c.Valid() && j < c.bins && p <= c.n && Prime(order)
    requires forall i :: 0 <= i < c.n ==> c.alpha[i][j] % order != 0
    ensures Plain(c, j, p) % order == 0 <==> Cong(ColumnSum(c.d, j, c.n), ColumnSum(c.e, j, c.n), order)
  {
    if p == 0 {
      CongZero(ColumnSum(c.d, j, c.n), ColumnSum(c.e, j, c.n), order);
    } else {
      BlindingKeepsNonZero(c, j, p - 1, order);
      ZeroProduct(c.alpha[p - 1][j], Plain(c, j, p - 1), order);
    }
  }

  lemma ZeroProduct(a: int, x: int, p: int)
    requires Prime(p) && a % p != 0
    ensures (a * x) % p == 0 <==> x % p == 0
  {
    if (a * x) % p == 0 {
      Euclid(a, x, p);
    }
    if x % p == 0 {
      assert x == x / p * p;
      MulAssoc(a, x / p, p);
      ModMultiple(a * (x / p), p);
    }
  }

  /** With a prime order and blinding factors that are not 0, bin j is reported exactly when the sums agree
      modulo the order. */
  lemma JPeqtFindsEqualSums<G(!new)>(c: Config<G>, j: nat, order: int)
    requires c.Valid() && c.params.Valid() && !c.permuting && j < c.bins
    requires HasOrder(c.params, order) && Prime(order)
    requires forall i :: 0 <= i < c.n ==> c.alpha[i][j] % order != 0
    ensures Outcome(c)[j] <==> Cong(ColumnSum(c.d, j, c.n), ColumnSum(c.e, j, c.n), order)
  {
    hide Group<G>.Valid, Group<G>.Mul, Outcome;
    OutcomeIsZeroTest(c, j);
    BlindingKeepsNonZero(c, j, c.n, order);
  }

  lemma {:induction false} SumBounds(rows: seq<seq<int>>, j: nat, m: nat, bound: int)
    requires m <= |rows| && forall i :: 0 <= i < |rows| ==> j < |rows[i]| && 0 <= rows[i][j] < bound
    ensures 0 <= ColumnSum(rows, j, m) <= m * bound && (m > 0 ==> ColumnSum(rows, j, m) < m * bound)
  {
    if m > 0 {
      SumBounds(rows, j, m - 1, bound);
      assert m * bound == (m - 1) * bound + bound;
    }
  }

  /** With 128-bit inputs and an order that leaves room for their sums: exactly when the sums are equal. */
  lemma JPeqtFindsEqualIntegers<G(!new)>(c: Config<G>, j: nat, order: int)
    requires c.Valid() && c.params.Valid() && !c.permuting && j < c.bins
    requires HasOrder(c.params, order) && Prime(order) && c.n * DOUBLE_WORD <= order
    requires forall i :: 0 <= i < c.n ==> c.alpha[i][j] % order != 0
    requires forall i :: 0 <= i < c.n ==> 0 <= c.d[i][j] < DOUBLE_WORD && 0 <= c.e[i][j] < DOUBLE_WORD
    ensures Outcome(c)[j] <==> ColumnSum(c.d, j, c.n) == ColumnSum(c.e, j, c.n)
  {
    hide Group<G>.Valid, Group<G>.Mul, Outcome;
    JPeqtFindsEqualSums(c, j, order);
    SumBounds(c.d, j, c.n, DOUBLE_WORD);
    SumBounds(c.e, j, c.n, DOUBLE_WORD);
    if Outcome(c)[j] {
      CongSmall(ColumnSum(c.d, j, c.n), ColumnSum(c.e, j, c.n), order);
    }
  }

  // ---------- Permutations on the way back ----------

  /** Mapping respects rearrangement. */
  lemma {:induction false} MapMultiset<A, B>(f: A -> B, s: seq<A>, t: seq<A>)
    requires multiset(s) == multiset(t)
    ensures multiset(Map(f, s)) == multiset(Map(f, t))
  {
    hide Map;
    if s == [] {
      assert |t| == |multiset(t)| == 0;
    } else {
      assert s[0] in multiset(t);
      var k :| 0 <= k < |t| && t[k] == s[0];
      var a, b := t[..k], t[k + 1..];
      assert t == a + [s[0]] + b;
      assert s == [s[0]] + s[1..];
      CancelFirst(s[0], s[1..], a, b);
      MapMultiset(f, s[1..], a + b);
      MapConcat(f, [s[0]], s[1..]);
      MapConcat(f, a + [s[0]], b);
      MapConcat(f, a, [s[0]]);
      MapConcat(f, a, b);
    }
  }

  lemma CancelFirst<A>(x: A, s: seq<A>, a: seq<A>, b: seq<A>)
    requires multiset([x] + s) == multiset(a + [x] + b)
    ensures multiset(s) == multiset(a + b)
  {
    assert multiset([x] + s) == multiset{x} + multiset(s);
    assert a + [x] + b == a + ([x] + b);
    assert multiset(a + [x] + b) == multiset{x} + (multiset(a) + multiset(b));
    Cancel(multiset{x}, multiset(s), multiset(a) + multiset(b));
  }

  lemma Cancel<A>(x: multiset<A>, p: multiset<A>, q: multiset<A>)
    requires x + p == x + q
    ensures p == q
  {
    assert p == (x + p) - x;
    assert q == (x + q) - x;
  }

  lemma MapConcat<A, B>(f: A -> B, s: seq<A>, t: seq<A>)
    ensures Map(f, s + t) == Map(f, s) + Map(f, t)
  {
  }

  /** Permuting rearranges. */
  lemma PermutedMultiset<T>(pi: seq<nat>, ct: seq<T>)
    requires IsPermutation(pi, |ct|)
    ensures multiset(Permuted(pi, ct)) == multiset(ct)
  {
    PermutationInRange(pi, |ct|);
    if ct == [] {
      assert Permuted(pi, ct) == ct;
    } else {
      var f: nat -> T := i => if 0 <= i < |ct| then ct[i] else ct[0];
      MapMultiset(f, pi, Identity(|ct|));
      assert Map(f, pi) == Permuted(pi, ct);
      assert Map(f, Identity(|ct|)) == ct;
    }
  }

  lemma {:induction false} ForwardSame<G(!new)>(c: Config<G>, p: nat)
    requires c.Valid() && p <= c.n
    ensures Forward(c.(permuting := true), p) == Forward(c.(permuting := false), p)
  {
    var c1, c0 := c.(permuting := true), c.(permuting := false);
    if p > 0 {
      ForwardSame(c, p - 1);
      assert Scaled(c1, p, Forward(c1, p - 1)) == Scaled(c0, p, Forward(c0, p - 1));
    } else {
      InputsSame(c);
      DifferencesSame(c, PkHE(c0), InputCts(c0));
    }
  }

  lemma InputsSame<G(!new)>(c: Config<G>)
    requires c.Valid()
    ensures PkHE(c.(permuting := true)) == PkHE(c.(permuting := false))
    ensures InputCts(c.(permuting := true)) == InputCts(c.(permuting := false))
  {
    var c1, c0 := c.(permuting := true), c.(permuting := false);
    assert OtherKeys(c1) == OtherKeys(c0);
    forall i | 0 <= i < c.n
      ensures InputCts(c1)[i] == InputCts(c0)[i]
    {
      assert EncryptedInputs(c1, i + 1, PkHE(c1)) == EncryptedInputs(c0, i + 1, PkHE(c0));
    }
  }

  lemma DifferencesSame<G(!new)>(c: Config<G>, pk: G, cts: seq<Vec<G>>)
    requires c.Valid() && |cts| == c.n && forall i :: 0 <= i < |cts| ==> |cts[i]| == c.bins
    ensures Differences(c.(permuting := true), pk, cts) == Differences(c.(permuting := false), pk, cts)
  {
    var c1, c0 := c.(permuting := true), c.(permuting := false);
    forall j | 0 <= j < c.bins
      ensures Differences(c1, pk, cts)[j] == Differences(c0, pk, cts)[j]
    {
      CtSumSame(c, cts, j, c.n);
    }
  }

  lemma {:induction false} CtSumSame<G(!new)>(c: Config<G>, cts: seq<Vec<G>>, j: nat, m: nat)
    requires m <= |cts| && forall i :: 0 <= i < |cts| ==> j < |cts[i]|
    ensures CtSum(c.(permuting := true), cts, j, m) == CtSum(c.(permuting := false), cts, j, m)
  {
    if m > 0 {
      CtSumSame(c, cts, j, m - 1);
    }
  }

  lemma {:induction false} BackRearranged<G(!new)>(c: Config<G>, p: nat)
    requires c.Valid() && 1 <= p <= c.n
    ensures multiset(Back(c.(permuting := true), p)) == multiset(Back(c.(permuting := false), p))
    decreases c.n - p
  {
    hide Forward, Returned;
    var c1, c0 := c.(permuting := true), c.(permuting := false);
    var s := if p == c.n then Forward(c1, p) else Back(c1, p + 1);
    var t := if p == c.n then Forward(c0, p) else Back(c0, p + 1);
    if p == c.n {
      ForwardSame(c, p);
    } else {
      BackRearranged(c, p + 1);
    }
    ReturnedRearranged(c, p, s, t);
  }

  lemma ReturnedRearranged<G(!new)>(c: Config<G>, p: nat, s: Vec<G>, t: Vec<G>)
    requires c.Valid() && 1 <= p <= c.n && |s| == |t| == c.bins && multiset(s) == multiset(t)
    ensures multiset(Returned(c.(permuting := true), p, s)) == multiset(Returned(c.(permuting := false), p, t))
  {
    hide Decrypted, Permuted;
    DecryptedRearranged(c, p, s, t);
    PermutedMultiset(c.pi[p - 1], Decrypted(c.(permuting := true), p, s));
  }

  lemma DecryptedRearranged<G(!new)>(c: Config<G>, p: nat, s: Vec<G>, t: Vec<G>)
    requires c.Valid() && p <= c.n && multiset(s) == multiset(t)
    ensures multiset(Decrypted(c.(permuting := true), p, s)) == multiset(Decrypted(c.(permuting := false), p, t))
  {
    MapMultiset(x => c.params.Dec(c.sk[p], x), s, t);
    assert Decrypted(c.(permuting := true), p, s) == Map(x => c.params.Dec(c.sk[p], x), s);
    assert Decrypted(c.(permuting := false), p, t) == Map(x => c.params.Dec(c.sk[p], x), t);
  }

  /** Whatever the permutations, permuting does not change how many bins pass. */
  lemma PermutingKeepsCount<G(!new)>(c: Config<G>)
    requires c.Valid()
    ensures multiset(Outcome(c.(permuting := true)))[true] == multiset(Outcome(c.(permuting := false)))[true]
  {
    var c1, c0 := c.(permuting := true), c.(permuting := false);
    BackRearranged(c, 1);
    MapMultiset(x => c.params.GetIntersection(c.sk[0], x), Back(c1, 1), Back(c0, 1));
    assert Outcome(c1) == Map(x => c.params.GetIntersection(c.sk[0], x), Back(c1, 1));
    assert Outcome(c0) == Map(x => c.params.GetIntersection(c.sk[0], x), Back(c0, 1));
  }

  // ---------- The two protocols against each other ----------

  /** The bins whose sums agree modulo the order. */
  ghost function AgreeingBins<G(!new)>(c: Config<G>, order: int): (r: set<nat>)
    requires c.Valid() && order > 0
    ensures forall j :: j in r <==> 0 <= j < c.bins && Cong(ColumnSum(c.d, j, c.n), ColumnSum(c.e, j, c.n), order)
  {
    set j: nat | j < c.bins && Cong(ColumnSum(c.d, j, c.n), ColumnSum(c.e, j, c.n), order)
  }

  ghost function TrueAt(s: seq<bool>): (r: set<nat>)
    ensures forall j :: j in r <==> 0 <= j < |s| && s[j]
  {
    set j: nat | j < |s| && s[j]
  }

  lemma {:induction false} CountTrue(s: seq<bool>)
    ensures multiset(s)[true] == |TrueAt(s)|
  {
    if s == [] {
      assert TrueAt(s) == {};
    } else {
      var n := |s| - 1;
      CountTrue(s[..n]);
      assert s == s[..n] + [s[n]];
      assert TrueAt(s) == TrueAt(s[..n]) + if s[n] then {n} else {};
    }
  }

  /** With a prime order and blinding factors that are not 0, the count of either protocol is the number of bins
      whose sums agree. */
  lemma CountsAgreeing<G(!new)>(c: Config<G>, order: int)
    requires c.Valid() && c.params.Valid() && HasOrder(c.params, order) && Prime(order)
    requires forall i, j :: 0 <= i < c.n && 0 <= j < c.bins ==> c.alpha[i][j] % order != 0
    ensures multiset(Outcome(c))[true] == |AgreeingBins(c, order)|
  {
    hide Group<G>.Valid, Outcome;
    var plain := c.(permuting := false);
    PermutingKeepsCount(c);
    assert c == c.(permuting := true) || c == plain;
    forall j | 0 <= j < c.bins
      ensures Outcome(plain)[j] <==> Cong(ColumnSum(c.d, j, c.n), ColumnSum(c.e, j, c.n), order)
    {
      JPeqtFindsEqualSums(plain, j, order);
    }
    CountTrue(Outcome(plain));
    assert TrueAt(Outcome(plain)) == AgreeingBins(c, order);
  }

  /** Two runs on the same inputs, with their own keys, randomness, blinding factors and, in JP-PEQT, permutations:
      the same number of matches, the number of bins whose sums agree. */
  lemma JpPeqtSameCount<G(!new)>(c: Config<G>, c': Config<G>, order: int)
    requires c.Valid() && c.params.Valid() && HasOrder(c.params, order) && Prime(order)
    requires c'.Valid() && c'.params.Valid() && HasOrder(c'.params, order)
    requires (c.n, c.bins, c.d, c.e) == (c'.n, c'.bins, c'.d, c'.e)
    requires forall i, j :: 0 <= i < c.n && 0 <= j < c.bins ==>
      c.alpha[i][j] % order != 0 && c'.alpha[i][j] % order != 0
    ensures multiset(Outcome(c))[true] == multiset(Outcome(c'))[true] == |AgreeingBins(c, order)|
  {
    hide Group<G>.Valid, Outcome;
    CountsAgreeing(c, order);
    CountsAgreeing(c', order);
    assert AgreeingBins(c, order) == AgreeingBins(c', order);
  }
}
