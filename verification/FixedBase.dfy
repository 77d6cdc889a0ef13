/** Fixed-base scalar multiplication (`ecc_mul_fixed` in eccp2_core.c): the comb over the 5 rows and 50 columns
    of the modified LSB-set digits, five table blocks of ten columns each. */
module FixedBase {
  import opened ModArith
  import opened BinarySums
  import opened Words
  import opened Montgomery
  import opened MlsbRecode
  import opened Group

  const W: nat := 5
  const V: nat := 5
  const E: nat := 10

  /** sum of 2^(stride*r) * a[start + stride*r] over r < count */
  function Strided(a: seq<int>, start: nat, stride: nat, count: nat): int
    requires count > 0 ==> start + stride * (count - 1) < |a|
    decreases count
  {
    if count == 0 then 0
    else
      StrideBelow(start, stride, count, |a|);
      Strided(a, start, stride, count - 1) + Pow2(stride * (count - 1)) * a[start + stride * (count - 1)]
  }

  lemma StrideBelow(start: nat, stride: nat, count: nat, n: nat)
    requires count > 0 && start + stride * (count - 1) < n
    ensures stride * (count - 1) >= 0
    ensures count > 1 ==> start + stride * (count - 2) < n
  {
    assert stride * (count - 1) >= 0;
    if count > 1 {
      assert stride * (count - 1) == stride * (count - 2) + stride;
    }
  }

  /** The columns of a table with `count` rows of `stride` entries. */
  function Columns(a: seq<int>, stride: nat, count: nat): (c: seq<int>)
    requires stride * count <= |a|
    ensures |c| == stride
  {
    seq(stride, i requires 0 <= i < stride => StridedIn(a, i, stride, count))
  }

  function StridedIn(a: seq<int>, i: nat, stride: nat, count: nat): int
    requires i < stride && stride * count <= |a|
  {
    ColumnFits(i, stride, count);
    Strided(a, i, stride, count)
  }

  lemma ColumnFits(i: nat, stride: nat, count: nat)
    requires i < stride
    ensures count > 0 ==> i + stride * (count - 1) < stride * count
  {
    if count > 0 {
      assert stride * count == stride * (count - 1) + stride;
    }
  }

  lemma {:induction false} ExpansionSplit(a: seq<int>, start: nat, m: nat, n: nat)
    requires start + m + n <= |a|
    ensures Expansion(a, start, m + n) == Expansion(a, start, m) + Pow2(m) * Expansion(a, start + m, n)
  {
    if n > 0 {
      ExpansionSplit(a, start, m, n - 1);
      Pow2Add(m, n - 1);
      LastTerm(Pow2(m), Pow2(n - 1), a[start + m + n - 1], Expansion(a, start + m, n - 1));
    }
  }

  lemma LastTerm(p: int, q: int, x: int, rest: int)
    ensures p * rest + (p * q) * x == p * (rest + q * x)
  {
    MulAssoc(p, q, x);
  }

  /** Adding a multiple of one row adds its expansion. */
  lemma {:induction false} ExpansionOfSum(a: seq<int>, b: seq<int>, p: int, row: seq<int>, start: nat, n: nat)
    requires n <= |a| && n <= |b| && start + n <= |row|
    requires forall i :: 0 <= i < n ==> b[i] == a[i] + p * row[start + i]
    ensures Expansion(b, 0, n) == Expansion(a, 0, n) + p * Expansion(row, start, n)
  {
    if n > 0 {
      ExpansionOfSum(a, b, p, row, start, n - 1);
      AddScaled(Pow2(n - 1), a[n - 1], p, row[start + n - 1], Expansion(row, start, n - 1));
    }
  }

  lemma AddScaled(q: int, x: int, p: int, y: int, rest: int)
    ensures p * rest + q * (x + p * y) == q * x + p * (rest + q * y)
  {
    MulAssoc(q, p, y);
    MulAssoc(p, q, y);
    assert q * (x + p * y) == q * x + q * (p * y);
    assert p * (rest + q * y) == p * rest + p * (q * y);
  }

  /** Summing columns first, or the whole sequence at once: the same number. */
  lemma {:induction false} Transpose(a: seq<int>, stride: nat, count: nat)
    requires stride * count <= |a|
    ensures Expansion(Columns(a, stride, count), 0, stride) == Expansion(a, 0, stride * count)
  {
    if count == 0 {
      AllZero(Columns(a, stride, 0), stride);
    } else {
      RowCount(stride, count);
      Transpose(a, stride, count - 1);
      var row := stride * (count - 1);
      forall i | 0 <= i < stride
        ensures Columns(a, stride, count)[i] == Columns(a, stride, count - 1)[i] + Pow2(row) * a[row + i]
      {
        ColumnNext(a, i, stride, count);
      }
      ExpansionOfSum(Columns(a, stride, count - 1), Columns(a, stride, count), Pow2(row), a, row, stride);
      ExpansionSplit(a, 0, row, stride);
    }
  }

  lemma RowCount(stride: nat, count: nat)
    requires count > 0
    ensures stride * count == stride * (count - 1) + stride && stride * (count - 1) >= 0
  {
  }

  lemma ColumnNext(a: seq<int>, i: nat, stride: nat, count: nat)
    requires i < stride && count > 0 && stride * count <= |a| && stride * (count - 1) <= |a| && stride * (count - 1) >= 0
    requires stride * (count - 1) + i < |a|
    ensures StridedIn(a, i, stride, count)
         == StridedIn(a, i, stride, count - 1) + Pow2(stride * (count - 1)) * a[stride * (count - 1) + i]
  {
    ColumnFits(i, stride, count);
  }

  lemma {:induction false} AllZero(s: seq<int>, n: nat)
    requires n <= |s| && forall i :: 0 <= i < n ==> s[i] == 0
    ensures Expansion(s, 0, n) == 0
  {
    if n > 0 {
      AllZero(s, n - 1);
    }
  }

  /** The digits as a sequence of columns, and the columns as rows of the comb. */
  function Cols(digits: seq<int>): (c: seq<int>)
    requires |digits| >= L
    ensures |c| == D
  {
    Columns(SignedDigits(digits), D, W)
  }

  function Rows(digits: seq<int>): (c: seq<int>)
    requires |digits| >= L
    ensures |c| == E
  {
    Columns(Cols(digits), E, V)
  }

  lemma RowsAreTheScalar(digits: seq<int>)
    requires |digits| >= L
    ensures Expansion(Rows(digits), 0, E) == Expansion(SignedDigits(digits), 0, L)
  {
    Transpose(Cols(digits), E, V);
    Transpose(SignedDigits(digits), D, W);
  }

  /** What entry u of block b holds, as a multiple of the generator. */
  function EntryValue(b: nat, u: int): int {
    Pow2(E * b) * (1 + Pow2(50) * (u % 2) + Pow2(100) * ((u / 2) % 2) + Pow2(150) * ((u / 4) % 2) + Pow2(200) * ((u / 8) % 2))
  }

  /** The precomputed table: five blocks of sixteen points. */
  ghost predicate IsTable<G(!new)>(g: Group<G>, P: G, table: seq<G>) {
    |table| == 80 && forall b: nat, u: nat :: b < 5 && u < 16 ==> table[Place(b, u)] == g.Mul(EntryValue(b, u), P)
  }

  function Place(b: nat, u: nat): (p: nat)
    requires b < 5 && u < 16
    ensures p < 80
  {
    16 * b + u
  }

  /** `table_lookup_fixed_base`: negated when the sign is -1. */
  function Lookup<G(!new)>(g: Group<G>, table: seq<G>, b: nat, u: nat, sign: int): G
    requires |table| == 80 && b < 5 && u < 16
  {
    if sign == 0 then table[Place(b, u)] else g.neg(table[Place(b, u)])
  }

  ghost predicate Comb(digits: seq<int>) {
    |digits| >= L && (forall i :: D <= i < L ==> digits[i] == 0 || digits[i] == 1)
  }

  /** The index a column gives: its digits above the sign row, row 1 lowest. */
  function ColumnIndex(digits: seq<int>, c: nat): int
    requires |digits| >= L && c < D
  {
    digits[c + 50] + 2 * digits[c + 100] + 4 * digits[c + 150] + 8 * digits[c + 200]
  }

  lemma ColumnBits(u: int, d1: int, d2: int, d3: int, d4: int)
    requires (d1 == 0 || d1 == 1) && (d2 == 0 || d2 == 1) && (d3 == 0 || d3 == 1) && (d4 == 0 || d4 == 1)
    requires u == d1 + 2 * d2 + 4 * d3 + 8 * d4
    ensures 0 <= u < 16 && u % 2 == d1 && (u / 2) % 2 == d2 && (u / 4) % 2 == d3 && (u / 8) % 2 == d4
  {
  }

  lemma ColumnSum(digits: seq<int>, c: nat)
    requires |digits| >= L && c < D
    ensures var b := SignedDigits(digits);
            Cols(digits)[c] == b[c] + Pow2(50) * b[c + 50] + Pow2(100) * b[c + 100] + Pow2(150) * b[c + 150] + Pow2(200) * b[c + 200]
  {
    hide Pow2, SignedDigits;
    FiveTerms(SignedDigits(digits), c);
  }

  lemma FiveTerms(a: seq<int>, c: nat)
    requires |a| == L && c < D
    ensures Strided(a, c, D, 5) == a[c] + Pow2(50) * a[c + 50] + Pow2(100) * a[c + 100] + Pow2(150) * a[c + 150] + Pow2(200) * a[c + 200]
  {
    hide Pow2;
    WordIsPow2();
    assert Strided(a, c, D, 1) == Strided(a, c, D, 0) + Pow2(0) * a[c];
    assert Strided(a, c, D, 2) == Strided(a, c, D, 1) + Pow2(50) * a[c + 50];
    assert Strided(a, c, D, 3) == Strided(a, c, D, 2) + Pow2(100) * a[c + 100];
    assert Strided(a, c, D, 4) == Strided(a, c, D, 3) + Pow2(150) * a[c + 150];
    assert Strided(a, c, D, 5) == Strided(a, c, D, 4) + Pow2(200) * a[c + 200];
  }

  lemma SignOut(s: int, p1: int, p2: int, p3: int, p4: int, d1: int, d2: int, d3: int, d4: int)
    requires s == 1 || s == -1
    ensures s + p1 * (s * d1) + p2 * (s * d2) + p3 * (s * d3) + p4 * (s * d4) == s * (1 + p1 * d1 + p2 * d2 + p3 * d3 + p4 * d4)
  {
  }

  /** A column's digits all have the sign of the column. */
  lemma ColumnValue(digits: seq<int>, b: nat, c: nat)
    requires Comb(digits) && c < D && b < V
    ensures 0 <= ColumnIndex(digits, c) < 16
    ensures Pow2(E * b) * Cols(digits)[c] == RowSign(digits[c]) * EntryValue(b, ColumnIndex(digits, c))
  {
    hide Pow2, Cols, SignedDigits, EntryValue;
    var d1, d2, d3, d4 := digits[c + 50], digits[c + 100], digits[c + 150], digits[c + 200];
    var s, u := RowSign(digits[c]), ColumnIndex(digits, c);
    ColumnBits(u, d1, d2, d3, d4);
    ColumnSum(digits, c);
    SignOut(s, Pow2(50), Pow2(100), Pow2(150), Pow2(200), d1, d2, d3, d4);
    var x := 1 + Pow2(50) * d1 + Pow2(100) * d2 + Pow2(150) * d3 + Pow2(200) * d4;
    EntryOf(b, u, d1, d2, d3, d4);
    SignAround(Pow2(E * b), s, x);
  }

  lemma EntryOf(b: nat, u: int, d1: int, d2: int, d3: int, d4: int)
    requires u % 2 == d1 && (u / 2) % 2 == d2 && (u / 4) % 2 == d3 && (u / 8) % 2 == d4
    ensures EntryValue(b, u) == Pow2(E * b) * (1 + Pow2(50) * d1 + Pow2(100) * d2 + Pow2(150) * d3 + Pow2(200) * d4)
  {
    hide Pow2;
  }

  lemma SignAround(p: int, s: int, x: int)
    requires s == 1 || s == -1
    ensures p * (s * x) == s * (p * x)
  {
  }

  /** The point looked up for a column of a block. */
  lemma ColumnPoint<G(!new)>(g: Group<G>, P: G, table: seq<G>, digits: seq<int>, b: nat, c: nat)
    requires g.Valid() && IsTable(g, P, table) && Comb(digits) && c < D && b < V
    ensures 0 <= ColumnIndex(digits, c) < 16
    ensures Lookup(g, table, b, ColumnIndex(digits, c), digits[c]) == g.Mul(Pow2(E * b) * Cols(digits)[c], P)
  {
    hide g.Valid, g.Mul, Pow2, Cols, EntryValue;
    ColumnValue(digits, b, c);
    var u: nat := ColumnIndex(digits, c);
    assert table[Place(b, u)] == g.Mul(EntryValue(b, u), P);
    g.MulNeg(EntryValue(b, u), P);
  }

  method ColumnDigit(digits: array<int>, c: nat) returns (digit: int)
    requires digits.Length >= L && c < D
    ensures digit == ColumnIndex(digits[..], c)
  {
    digit := digits[W * D - D + c];
    var i := (W - 1) * D - D + c;
    while i >= 2 * D - D + c
      invariant i == 150 + c || i == 100 + c || i == 50 + c || i == c
      invariant i == 150 + c ==> digit == digits[c + 200]
      invariant i == 100 + c ==> digit == digits[c + 150] + 2 * digits[c + 200]
      invariant i == 50 + c ==> digit == digits[c + 100] + 2 * digits[c + 150] + 4 * digits[c + 200]
      invariant i == c ==> digit == ColumnIndex(digits[..], c)
    {
      digit := 2 * digit + digits[i];
      i := i - D;
    }
  }

  /** sum of the blocks b..4 of one row of the comb */
  function Blocks(digits: seq<int>, ii: nat, b: nat): int
    requires |digits| >= L && ii < E && b <= V
  {
    Strided(Cols(digits), ii, E, V) - Strided(Cols(digits), ii, E, b)
  }

  lemma BlocksNext(digits: seq<int>, ii: nat, b: nat)
    requires |digits| >= L && ii < E && b < V
    ensures Blocks(digits, ii, b) == Blocks(digits, ii, b + 1) + Pow2(E * b) * Cols(digits)[ii + E * b]
    ensures Blocks(digits, ii, V) == 0 && Blocks(digits, ii, 0) == Rows(digits)[ii]
  {
    hide Cols;
  }

  /** Adding the point of one block takes in its column. */
  lemma BlockPoint<G(!new)>(g: Group<G>, P: G, table: seq<G>, digits: seq<int>, ii: nat, block: nat, n: int, x: G)
    requires g.Valid() && |table| == 80 && IsTable(g, P, table) && Comb(digits) && ii < E && block < V
    requires |digits| >= L && x == g.Mul(n + Blocks(digits, ii, block + 1), P)
    ensures 0 <= ColumnIndex(digits, ii + E * block) < 16
    ensures g.add(x, Lookup(g, table, block, ColumnIndex(digits, ii + E * block), digits[ii + E * block]))
         == g.Mul(n + Blocks(digits, ii, block), P)
  {
    hide g.Valid, g.Mul, Pow2, Cols, Blocks, IsTable, Comb, Lookup, ColumnIndex;
    ColumnPoint(g, P, table, digits, block, ii + E * block);
    BlocksNext(digits, ii, block);
    g.MulAdd(n + Blocks(digits, ii, block + 1), Pow2(E * block) * Cols(digits)[ii + E * block], P);
  }

  /** One row: the points of blocks from-1 down to 0 are added. */
  method AddBlocks<G(!new)>(g: Group<G>, ghost P: G, table: seq<G>, digits: array<int>, ii: nat, from: nat, x: G, ghost n: int)
    returns (R: G)
    requires g.Valid() && |table| == 80 && IsTable(g, P, table) && digits.Length >= L && Comb(digits[..]) && ii < E && from <= V
    requires x == g.Mul(n + Blocks(digits[..], ii, from), P)
    ensures R == g.Mul(n + Rows(digits[..])[ii], P)
  {
    hide g.Valid, g.Mul, Pow2, Cols, Rows, Blocks, IsTable, Comb, Lookup, ColumnIndex;
    R := x;
    for j := 0 to from
      invariant R == g.Mul(n + Blocks(digits[..], ii, from - j), P)
    {
      var block, column := from - j - 1, D - (V - from + j) * E + ii - E;
      BlockPoint(g, P, table, digits[..], ii, block, n, R);
      var digit := ColumnDigit(digits, column);
      R := g.add(R, Lookup(g, table, block, digit, digits[column]));
    }
    BlocksNext(digits[..], ii, 0);
  }

  lemma RowsNext(digits: seq<int>, ii: nat)
    requires |digits| >= L && ii < E
    ensures Expansion(Rows(digits), ii, E - ii) == 2 * Expansion(Rows(digits), ii + 1, E - ii - 1) + Rows(digits)[ii]
  {
    ExpansionFront(Rows(digits), ii, E - ii);
  }

  /** The comb: nine doublings, and one looked-up point for each of the fifty columns. */
  method CombLoops<G(!new)>(g: Group<G>, ghost P: G, table: seq<G>, digits: array<int>) returns (R: G)
    requires g.Valid() && |table| == 80 && IsTable(g, P, table) && digits.Length >= L && Comb(digits[..])
    ensures R == g.Mul(Expansion(SignedDigits(digits[..]), 0, L), P)
  {
    hide g.Valid, g.Mul, Pow2, Cols, Rows, IsTable, Comb, SignedDigits, Blocks;
    ghost var ds := digits[..];
    ColumnPoint(g, P, table, ds, V - 1, D - 1);
    BlocksNext(ds, E - 1, V - 1);
    var digit := ColumnDigit(digits, D - 1);
    R := Lookup(g, table, V - 1, digit, digits[D - 1]);
    R := AddBlocks(g, P, table, digits, E - 1, V - 1, R, 0);
    RowsNext(ds, E - 1);
    for ii := E - 1 downto 0
      invariant R == g.Mul(Expansion(Rows(ds), ii, E - ii), P)
    {
      ghost var n := Expansion(Rows(ds), ii + 1, E - ii - 1);
      R := g.add(R, R);
      g.MulAdd(n, n, P);
      BlocksNext(ds, ii, V - 1);
      R := AddBlocks(g, P, table, digits, ii, V, R, 2 * n);
      RowsNext(ds, ii);
    }
    RowsAreTheScalar(ds);
  }

  /** The words of a 256-bit number. */
  function ToWords(x: int): (s: seq<int>)
    requires 0 <= x < QUAD_WORD
    ensures FourWords(s) && Value(s) == x
  {
    [x % WORD, x / WORD % WORD, x / WORD / WORD % WORD, x / WORD / WORD / WORD]
  }

  /** The order is odd: an even scalar becomes odd without changing the multiple. */
  function ConversionToOdd(k: int): (r: int)
    requires 0 <= k < ORDER
    ensures 0 <= r < 2 * ORDER && r % 2 == 1
  {
    if k % 2 == 1 then k else k + ORDER
  }

  /** The reduced, odd scalar gives the same multiple as the scalar itself. */
  lemma SameMultiple<G(!new)>(g: Group<G>, k: nat, P: G)
    requires g.Valid() && g.Mul(ORDER, P) == g.zero
    ensures g.Mul(ConversionToOdd(k % ORDER), P) == g.Mul(k, P)
  {
    hide g.Valid, g.Mul;
    var r := k % ORDER;
    assert k == k / ORDER * ORDER + r;
    g.MulMultiple(k / ORDER, ORDER, P);
    g.MulAdd(k / ORDER * ORDER, r, P);
    g.Laws(g.Mul(r, P), g.zero, g.zero);
    g.MulAdd(r, ORDER, P);
  }

  lemma OddScalarFits(x: int)
    requires x < 2 * ORDER
    ensures x < Pow2(249) && x < QUAD_WORD
  {
    QuadWordIsPow2();
    Pow2Add(249, 7);
    assert Pow2(7) == 128;
  }

  lemma RecodedIsComb(k: int, digits: seq<int>, rem: int)
    requires |digits| >= L && MlsbRecode.Recoded(k, digits, rem) && k < Pow2(249) && k % 2 == 1
    ensures Comb(digits) && Expansion(SignedDigits(digits), 0, L) == k
  {
  }

  /** For every 256-bit scalar the result is that multiple of the generator. */
  method EccMulFixed<G(!new)>(g: Group<G>, generator: G, table: seq<G>, k: seq<int>) returns (Q: G)
    requires g.Valid() && |table| == 80 && IsTable(g, generator, table) && g.Mul(ORDER, generator) == g.zero
    requires FourWords(k)
    ensures Q == g.Mul(Value(k), generator)
  {
    hide g.Valid, g.Mul, IsTable, Value, MlsbRecode.Recoded, Expansion, SignedDigits, Pow2, Comb;
    ValueRange(k);
    var temp := ModuloOrder(Value(k));
    var odd := ConversionToOdd(temp);
    OddScalarFits(odd);
    var words := ToWords(odd);
    var scalar := new int[4](j requires 0 <= j < 4 => words[j]);
    assert scalar[..] == words;
    var digits := new int[271](_ => 0);
    MlsbSetRecode(scalar, digits);
    RecodedIsComb(odd, digits[..], Value(scalar[..]));
    Q := CombLoops(g, generator, table, digits);
    SameMultiple(g, Value(k), generator);
  }
}
