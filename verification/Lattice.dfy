/** Why the four sub-scalars of `decompose` (eccp2.c) stand for the scalar: the basis and the offset vanish
    under one pairing modulo the order, and no coordinate leaves 64 bits, so nothing is lost to wrap-around. */
module Lattice {
  import opened ModArith
  import opened Words
  import opened Decomposition
  import opened Montgomery

  /** The factors by which phi, psi and psi after phi multiply. They are not written in the source: the basis
      determines them (FactorsDetermined). */
  const EIGEN_PHI: int := 0x6D9069DC876C883C18F03C13D737624874F0B5E4DAA9BCDF0E63CE8997864
  const EIGEN_PSI: int := 0x18C475353519268C4C2510AB53B51ECB3688CA09EF0E885DC7F2B7CDFD2A88
  const EIGEN_PSI_PHI: int := 0x17F1D82D2B617701CC07F2197CCF13EAAAEBB7756D5F80E27D32386D92DABA

  const ELL1_VALUE: int := 0x7FC5BB5C5EA2BE5DFF75682ACE6A6BD66259686E09D1A7D4F
  const ELL2_VALUE: int := 0x38FD4B04CAA6C0F8A2BD235580F468D8DD1BA1D84DD627AFB
  const ELL3_VALUE: int := 0xD038BF8D0BFFBAF6C42BD6C965DCA9029B291A33678C203C
  const ELL4_VALUE: int := 0x31B073877A22D841081CBDC3714983D8212E5666B77E7FDC0

  lemma EllValues()
    ensures Value(ELL1) == ELL1_VALUE && Value(ELL2) == ELL2_VALUE
    ensures Value(ELL3) == ELL3_VALUE && Value(ELL4) == ELL4_VALUE
  {
  }

  /** psi after phi multiplies by the product of the two factors. */
  lemma EigenProduct()
    ensures Cong(EIGEN_PSI * EIGEN_PHI, EIGEN_PSI_PHI, ORDER)
  {
  }

  /** What four coordinates stand for when phi, psi and psi after phi multiply by x, y and z. */
  ghost function PairingWith(x: int, y: int, z: int, s0: int, s1: int, s2: int, s3: int): int {
    s0 + x * s1 + y * s2 + z * s3
  }

  ghost function Pairing(s0: int, s1: int, s2: int, s3: int): int {
    PairingWith(EIGEN_PHI, EIGEN_PSI, EIGEN_PSI_PHI, s0, s1, s2, s3)
  }

  /** Every basis vector, and the offset, stands for 0. */
  lemma BasisVanishes()
    ensures Pairing(B11, -B12, B13, -B14) == -0x3A2D940CDBB5054 * ORDER
    ensures Pairing(B21, -1, 1, B24) == 0x15B0601B5F535228 * ORDER
    ensures Pairing(B31, B32, -B33, B34) == -0x14E68705A31A9D84 * ORDER
    ensures Pairing(B41, B42, -B43, -B44) == -0xA0D2BA666FBAED3 * ORDER
    ensures Pairing(C1, C2, C3, C4) == 0x970B1E4CF7F915AE * ORDER
  {
  }

  ghost predicate Vanishes(x: int, y: int, z: int) {
    && Cong(PairingWith(x, y, z, B11, -B12, B13, -B14), 0, ORDER)
    && Cong(PairingWith(x, y, z, B21, -1, 1, B24), 0, ORDER)
    && Cong(PairingWith(x, y, z, B31, B32, -B33, B34), 0, ORDER)
    && Cong(PairingWith(x, y, z, B41, B42, -B43, -B44), 0, ORDER)
  }

  /** Three multiples of the order that the first three vectors stand for determine all three factors. */
  lemma Solve(x: int, y: int, z: int, n1: int, n2: int, n3: int) returns (a: int, b: int, c: int)
    requires PairingWith(x, y, z, B11, -B12, B13, -B14) == 0 + n1 * ORDER
    requires PairingWith(x, y, z, B21, -1, 1, B24) == 0 + n2 * ORDER
    requires PairingWith(x, y, z, B31, B32, -B33, B34) == 0 + n3 * ORDER
    ensures x == EIGEN_PHI + a * ORDER && y == EIGEN_PSI + b * ORDER && z == EIGEN_PSI_PHI + c * ORDER
  {
    a := 0xE88D04E0551F7DF239931E27557390375CCBA66B049DBCC04E9EE1CF55486 * n1
       + 0x7865F790273CD9C60C1E3312E8B7F392AC9E903A80F3A5AEA20C7C105B478 * n2
       + 0x25771258416846E6AF35DE2534312D3F009946FAA0C365FA37237AC403C447 * n3
       - 0x1DA13F43E0076ABA + 0x4436EA2A4E661EE * x + 0x26FAB1557D1A2021 * y - 0xD71D66861BC75CD * z;
    b := 0x24F04D7975807FD7C26BF1D4CC49CB806059810E9224AC429D3A4389259739 * n1
       + 0x1936F6697855A155785FDCD144242C4A03B820F9253070BA49DE6C7EEC2BAE * n2
       + 0x725FA2044D1A2DBFB1709A83DA1C54DD57D638C2724826BA012159228691C * n3
       - 0x1DB1D49A9B605312 + 0x10A9ECD1CA6DE1BE * x + 0x180D4B3257BC3A0 * y - 0x114F95C8246B06ED * z;
    c := 0x10BA71EDF13F7500483C5FB63EF0AAC49FB7F08FAE9D79821C6917F98790D * n1
       + 0x296E716998C122D73605BE0C103C9BB5BC85561CC2756AAA18ED85949D5D51 * n2
       + 0x23D36AD2AE0AA17261C84E5AD2531DE7523B6862AC09CADDFAC91B71B350BC * n3
       - 0x318BE7A390C3AC7C - 0x1E2CF489554EE3D * x + 0x27818F7922227BD0 * y - 0x2E6C2B99040029FA * z;
  }

  /** Adding multiples of the order to the factors adds multiples of the order to what a vector stands for. */
  lemma PairingShift(x: int, y: int, z: int, a: int, b: int, c: int, q: int, s0: int, s1: int, s2: int, s3: int)
    requires x == EIGEN_PHI + a * ORDER && y == EIGEN_PSI + b * ORDER && z == EIGEN_PSI_PHI + c * ORDER
    requires Pairing(s0, s1, s2, s3) == q * ORDER
    ensures Cong(PairingWith(x, y, z, s0, s1, s2, s3), 0, ORDER)
  {
    hide Cong;
    Spread(EIGEN_PHI, a, s1, ORDER);
    Spread(EIGEN_PSI, b, s2, ORDER);
    Spread(EIGEN_PSI_PHI, c, s3, ORDER);
    var n := q + a * s1 + b * s2 + c * s3;
    Gather(q, a * s1, b * s2, c * s3, ORDER);
    CongWitness(PairingWith(x, y, z, s0, s1, s2, s3), 0, n, ORDER);
  }

  lemma Spread(e: int, a: int, s: int, n: int)
    ensures (e + a * n) * s == e * s + (a * s) * n
  {
  }

  lemma Gather(a: int, b: int, c: int, d: int, n: int)
    ensures (a + b + c + d) * n == a * n + b * n + c * n + d * n
  {
  }

  /** The basis vanishes for these factors and, modulo the order, for no others. */
  lemma FactorsDetermined(x: int, y: int, z: int)
    ensures Vanishes(x, y, z)
       <==> Cong(x, EIGEN_PHI, ORDER) && Cong(y, EIGEN_PSI, ORDER) && Cong(z, EIGEN_PSI_PHI, ORDER)
  {
    if Vanishes(x, y, z) {
      Determined(x, y, z);
    }
    if Cong(x, EIGEN_PHI, ORDER) && Cong(y, EIGEN_PSI, ORDER) && Cong(z, EIGEN_PSI_PHI, ORDER) {
      StillVanishes(x, y, z);
    }
  }

  lemma Determined(x: int, y: int, z: int)
    requires Vanishes(x, y, z)
    ensures Cong(x, EIGEN_PHI, ORDER) && Cong(y, EIGEN_PSI, ORDER) && Cong(z, EIGEN_PSI_PHI, ORDER)
  {
    hide Cong, PairingWith;
    var n1 := CongQuotient(PairingWith(x, y, z, B11, -B12, B13, -B14), 0, ORDER);
    var n2 := CongQuotient(PairingWith(x, y, z, B21, -1, 1, B24), 0, ORDER);
    var n3 := CongQuotient(PairingWith(x, y, z, B31, B32, -B33, B34), 0, ORDER);
    var a, b, c := Solve(x, y, z, n1, n2, n3);
    CongWitness(x, EIGEN_PHI, a, ORDER);
    CongWitness(y, EIGEN_PSI, b, ORDER);
    CongWitness(z, EIGEN_PSI_PHI, c, ORDER);
  }

  lemma StillVanishes(x: int, y: int, z: int)
    requires Cong(x, EIGEN_PHI, ORDER) && Cong(y, EIGEN_PSI, ORDER) && Cong(z, EIGEN_PSI_PHI, ORDER)
    ensures Vanishes(x, y, z)
  {
    hide Cong, Pairing, PairingWith;
    BasisVanishes();
    var a := CongQuotient(x, EIGEN_PHI, ORDER);
    var b := CongQuotient(y, EIGEN_PSI, ORDER);
    var c := CongQuotient(z, EIGEN_PSI_PHI, ORDER);
    PairingShift(x, y, z, a, b, c, -0x3A2D940CDBB5054, B11, -B12, B13, -B14);
    PairingShift(x, y, z, a, b, c, 0x15B0601B5F535228, B21, -1, 1, B24);
    PairingShift(x, y, z, a, b, c, -0x14E68705A31A9D84, B31, B32, -B33, B34);
    PairingShift(x, y, z, a, b, c, -0xA0D2BA666FBAED3, B41, B42, -B43, -B44);
  }

  /** The coordinates before truncation to 64 bits. */
  ghost function Unwrapped(k: seq<int>, j: nat): int
    requires |k| == 4 && j < 4
  {
    Offset(k, j) + Again(k) * (if j == 0 then B41 else if j == 1 then B42 else if j == 2 then -B43 else -B44)
  }

  /** Rounding down loses less than one unit. */
  lemma Rounded(k: int, ell: int)
    ensures QUAD_WORD * (k * ell / QUAD_WORD) <= k * ell < QUAD_WORD * (k * ell / QUAD_WORD) + QUAD_WORD
  {
  }

  ghost predicate Rounds(k: int, a1: int, a2: int, a3: int, a4: int) {
    && 0 <= k < QUAD_WORD
    && QUAD_WORD * a1 <= k * ELL1_VALUE < QUAD_WORD * a1 + QUAD_WORD
    && QUAD_WORD * a2 <= k * ELL2_VALUE < QUAD_WORD * a2 + QUAD_WORD
    && QUAD_WORD * a3 <= k * ELL3_VALUE < QUAD_WORD * a3 + QUAD_WORD
    && QUAD_WORD * a4 <= k * ELL4_VALUE < QUAD_WORD * a4 + QUAD_WORD
  }

  lemma Range0(k: int, a1: int, a2: int, a3: int, a4: int)
    requires Rounds(k, a1, a2, a3, a4)
    ensures 0 <= k - a1 * B11 - a2 * B21 - a3 * B31 - a4 * B41 + C1 < WORD - B41
  {
  }

  lemma Range1(k: int, a1: int, a2: int, a3: int, a4: int)
    requires Rounds(k, a1, a2, a3, a4)
    ensures 0 <= a1 * B12 + a2 - a3 * B32 - a4 * B42 + C2 < WORD - B42
  {
  }

  lemma Range2(k: int, a1: int, a2: int, a3: int, a4: int)
    requires Rounds(k, a1, a2, a3, a4)
    ensures B43 <= a3 * B33 - a1 * B13 - a2 + a4 * B43 + C3 < WORD
  {
  }

  lemma Range3(k: int, a1: int, a2: int, a3: int, a4: int)
    requires Rounds(k, a1, a2, a3, a4)
    ensures B44 <= a1 * B14 - a2 * B24 - a3 * B34 + a4 * B44 + C4 < WORD
  {
  }

  lemma CoordinatesRound(k: seq<int>)
    requires FourWords(k)
    ensures Rounds(Value(k), Coordinate(k, ELL1), Coordinate(k, ELL2), Coordinate(k, ELL3), Coordinate(k, ELL4))
  {
    hide Value;
    EllValues();
    ValueRange(k);
    Rounded(Value(k), ELL1_VALUE);
    Rounded(Value(k), ELL2_VALUE);
    Rounded(Value(k), ELL3_VALUE);
    Rounded(Value(k), ELL4_VALUE);
  }

  /** No coordinate leaves 64 bits, with or without the fourth basis vector added once more. */
  lemma CoordinatesFit(k: seq<int>)
    requires FourWords(k)
    ensures forall j :: 0 <= j < 4 ==> 0 <= Unwrapped(k, j) < WORD
  {
    hide Value, Coordinate, Rounds;
    var a1, a2, a3, a4 := Coordinate(k, ELL1), Coordinate(k, ELL2), Coordinate(k, ELL3), Coordinate(k, ELL4);
    CoordinatesRound(k);
    Range0(Value(k), a1, a2, a3, a4);
    Range1(Value(k), a1, a2, a3, a4);
    Range2(Value(k), a1, a2, a3, a4);
    Range3(Value(k), a1, a2, a3, a4);
  }

  /** So the 64-bit arithmetic gives the coordinates themselves. */
  lemma SubScalarsExact(k: seq<int>)
    requires FourWords(k)
    ensures forall j :: 0 <= j < 4 ==> SubScalars(k)[j] == Unwrapped(k, j)
  {
    hide Offset;
    CoordinatesFit(k);
    assert 0 <= Unwrapped(k, 0) < WORD && 0 <= Unwrapped(k, 1) < WORD;
    assert 0 <= Unwrapped(k, 2) < WORD && 0 <= Unwrapped(k, 3) < WORD;
  }

  /** The multiple of the order that a lattice point and the offset stand for. */
  ghost function Multiple(a1: int, a2: int, a3: int, a4: int): int {
    0x970B1E4CF7F915AE + 0x3A2D940CDBB5054 * a1 - 0x15B0601B5F535228 * a2 + 0x14E68705A31A9D84 * a3
      + 0xA0D2BA666FBAED3 * a4
  }

  /** A scalar minus a lattice point stands for the scalar, whatever the coordinates. */
  lemma StandsForScalar(k: int, a1: int, a2: int, a3: int, a4: int)
    ensures Pairing(k - a1 * B11 - a2 * B21 - a3 * B31 - a4 * B41 + C1,
                    a1 * B12 + a2 - a3 * B32 - a4 * B42 + C2,
                    a3 * B33 - a1 * B13 - a2 + a4 * B43 + C3,
                    a1 * B14 - a2 * B24 - a3 * B34 + a4 * B44 + C4)
         == k + Multiple(a1, a2, a3, a4) * ORDER
  {
  }

  /** The four sub-scalars stand for the scalar, modulo the order. */
  lemma SubScalarsStandFor(k: seq<int>) returns (q: int)
    requires FourWords(k)
    ensures var s := SubScalars(k); Pairing(s[0], s[1], s[2], s[3]) == Value(k) + q * ORDER
  {
    hide Value, Coordinate, SubScalars;
    var a1, a2, a3, a4 := Coordinate(k, ELL1), Coordinate(k, ELL2), Coordinate(k, ELL3), Coordinate(k, ELL4);
    SubScalarsExact(k);
    q := Multiple(a1, a2, a3, a4 - Again(k));
    StandsForScalar(Value(k), a1, a2, a3, a4 - Again(k));
    assert SubScalars(k)[0] == Unwrapped(k, 0) && SubScalars(k)[1] == Unwrapped(k, 1);
    assert SubScalars(k)[2] == Unwrapped(k, 2) && SubScalars(k)[3] == Unwrapped(k, 3);
  }
}
