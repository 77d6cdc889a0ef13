/** `decompose` of eccp2.c: a 256-bit scalar becomes four 64-bit sub-scalars by rounding against a fixed
    lattice basis. */
module Decomposition {
  import opened ModArith
  import opened Words

  const C1: int := 0x72482C5251A4559C
  const C2: int := 0x59F95B0ADD276F6C
  const C3: int := 0x7DD2D17C4625FA78
  const C4: int := 0x6BC57DEF56CE8877
  const B11: int := 0x0906FF27E0A0A196
  const B12: int := 0x1363E862C22A2DA0
  const B13: int := 0x07426031ECC8030F
  const B14: int := 0x084F739986B9E651
  const B21: int := 0x1D495BEA84FCC2D4
  const B24: int := 0x25DBC5BC8DD167D0
  const B31: int := 0x17ABAD1D231F0302
  const B32: int := 0x02C4211AE388DA51
  const B33: int := 0x2E4D21C98927C49F
  const B34: int := 0x0A9E6F44C02ECD97
  const B41: int := 0x136E340A9108C83F
  const B42: int := 0x3122DF2DC3E0FF32
  const B43: int := 0x068A49F02AA8A9B5
  const B44: int := 0x18D5087896DE0AEA
  const ELL1: seq<int> := [0x259686E09D1A7D4F, 0xF75682ACE6A6BD66, 0xFC5BB5C5EA2BE5DF, 0x07]
  const ELL2: seq<int> := [0xD1BA1D84DD627AFB, 0x2BD235580F468D8D, 0x8FD4B04CAA6C0F8A, 0x03]
  const ELL3: seq<int> := [0x9B291A33678C203C, 0xC42BD6C965DCA902, 0xD038BF8D0BFFBAF6, 0x00]
  const ELL4: seq<int> := [0x12E5666B77E7FDC0, 0x81CBDC3714983D82, 0x1B073877A22D8410, 0x03]

  /** The unrounded coordinate along one basis vector, as a 256-bit fixed-point product. */
  ghost function Coordinate(k: seq<int>, ell: seq<int>): int
    requires |k| == 4 && |ell| == 4
  {
    Value(k) * Value(ell) / QUAD_WORD
  }

  /** The scalar minus its nearest lattice point, plus the fixed offset: coordinate by coordinate. */
  ghost function Offset(k: seq<int>, j: nat): int
    requires |k| == 4 && j < 4
  {
    var a1, a2, a3, a4 := Coordinate(k, ELL1), Coordinate(k, ELL2), Coordinate(k, ELL3), Coordinate(k, ELL4);
    if j == 0 then Value(k) - a1 * B11 - a2 * B21 - a3 * B31 - a4 * B41 + C1
    else if j == 1 then a1 * B12 + a2 - a3 * B32 - a4 * B42 + C2
    else if j == 2 then a3 * B33 - a1 * B13 - a2 + a4 * B43 + C3
    else a1 * B14 - a2 * B24 - a3 * B34 + a4 * B44 + C4
  }

  /** 1 when the fourth basis vector is added once more, because coordinate 0 is even. */
  ghost function Again(k: seq<int>): (r: int)
    requires |k| == 4
  {
    if Offset(k, 0) % 2 == 0 then 1 else 0
  }

  /** The low 64 bits of each coordinate. */
  ghost function SubScalars(k: seq<int>): (r: seq<int>)
    requires |k| == 4
    ensures |r| == 4
  {
    [(Offset(k, 0) + Again(k) * B41) % WORD, (Offset(k, 1) + Again(k) * B42) % WORD,
     (Offset(k, 2) - Again(k) * B43) % WORD, (Offset(k, 3) - Again(k) * B44) % WORD]
  }

  lemma EvenWord(x: int)
    ensures (x % WORD) % 2 == x % 2
  {
  }

  /** Whatever the scalar, sub-scalar 0 is odd, as the recoding needs. */
  lemma FirstIsOdd(k: seq<int>)
    requires |k| == 4
    ensures SubScalars(k)[0] % 2 == 1 && FourWords(SubScalars(k))
  {
    hide Offset;
    EvenWord(Offset(k, 0) + Again(k) * B41);
  }

  /** Truncating one more coordinate to 64 bits does not change the low word of a combination. */
  lemma OneMore(x: int, x': int, a: int, b: int, m: int)
    requires Cong(x, x', WORD) && a == b % WORD
    ensures Cong(x + a * m, x' + b * m, WORD)
  {
    hide Cong;
    CongMod(b, WORD);
    CongScale(a, b, m, WORD);
    CongAdd(x, x', a * m, b * m, WORD);
  }

  lemma ValueLow(k: seq<int>)
    requires FourWords(k)
    ensures Cong(k[0], Value(k), WORD)
  {
  }

  /** The sums over the truncated coordinates, against the coordinates themselves. */
  lemma WrappedSum(k: seq<int>, a1: int, a2: int, a3: int, a4: int, x: int, x': int, m1: int, m2: int, m3: int, m4: int)
    requires FourWords(k) && Cong(x, x', WORD)
    requires a1 == Coordinate(k, ELL1) % WORD && a2 == Coordinate(k, ELL2) % WORD
    requires a3 == Coordinate(k, ELL3) % WORD && a4 == Coordinate(k, ELL4) % WORD
    ensures Cong(x + a1 * m1 + a2 * m2 + a3 * m3 + a4 * m4,
      x' + Coordinate(k, ELL1) * m1 + Coordinate(k, ELL2) * m2 + Coordinate(k, ELL3) * m3 + Coordinate(k, ELL4) * m4, WORD)
  {
    hide Coordinate, Cong;
    var b1, b2, b3, b4 := Coordinate(k, ELL1), Coordinate(k, ELL2), Coordinate(k, ELL3), Coordinate(k, ELL4);
    OneMore(x, x', a1, b1, m1);
    OneMore(x + a1 * m1, x' + b1 * m1, a2, b2, m2);
    OneMore(x + a1 * m1 + a2 * m2, x' + b1 * m1 + b2 * m2, a3, b3, m3);
    OneMore(x + a1 * m1 + a2 * m2 + a3 * m3, x' + b1 * m1 + b2 * m2 + b3 * m3, a4, b4, m4);
  }

  /** What the method computes of sub-scalar j before the parity correction, wrapping at 64 bits. */
  ghost function Wrapped(k: seq<int>, a1: int, a2: int, a3: int, a4: int, j: nat): int
    requires |k| == 4 && j < 4
  {
    if j == 0 then k[0] - a1 * B11 - a2 * B21 - a3 * B31 - a4 * B41 + C1
    else if j == 1 then a1 * B12 + a2 - a3 * B32 - a4 * B42 + C2
    else if j == 2 then a3 * B33 - a1 * B13 - a2 + a4 * B43 + C3
    else a1 * B14 - a2 * B24 - a3 * B34 + a4 * B44 + C4
  }

  lemma WrappedIsOffset(k: seq<int>, a1: int, a2: int, a3: int, a4: int, j: nat)
    requires FourWords(k) && j < 4
    requires a1 == Coordinate(k, ELL1) % WORD && a2 == Coordinate(k, ELL2) % WORD
    requires a3 == Coordinate(k, ELL3) % WORD && a4 == Coordinate(k, ELL4) % WORD
    ensures Cong(Wrapped(k, a1, a2, a3, a4, j), Offset(k, j), WORD)
  {
    hide Coordinate, Value, Cong;
    if j == 0 {
      ValueLow(k);
      CongShift(k[0], Value(k), C1, WORD);
      WrappedSum(k, a1, a2, a3, a4, k[0] + C1, Value(k) + C1, -B11, -B21, -B31, -B41);
    } else if j == 1 {
      CongRefl(C2);
      WrappedSum(k, a1, a2, a3, a4, C2, C2, B12, 1, -B32, -B42);
    } else if j == 2 {
      CongRefl(C3);
      WrappedSum(k, a1, a2, a3, a4, C3, C3, -B13, -1, B33, B43);
    } else {
      CongRefl(C4);
      WrappedSum(k, a1, a2, a3, a4, C4, C4, B14, -B24, -B34, B44);
    }
  }

  lemma CongRefl(z: int)
    ensures Cong(z, z, WORD)
  {
  }

  method Decompose(k: seq<int>) returns (scalars: seq<int>)
    requires FourWords(k)
    ensures scalars == SubScalars(k)
  {
    var a1 := MulTruncate(k, ELL1);
    var a2 := MulTruncate(k, ELL2);
    var a3 := MulTruncate(k, ELL3);
    var a4 := MulTruncate(k, ELL4);
    var temp := (k[0] - a1 * B11 - a2 * B21 - a3 * B31 - a4 * B41 + C1) % WORD;
    // all ones if temp is even, else 0
    var mask := if temp % 2 == 0 then WORD - 1 else 0;
    scalars := [(temp + Masked(mask, B41)) % WORD,
                (a1 * B12 + a2 - a3 * B32 - a4 * B42 + C2 + Masked(mask, B42)) % WORD,
                (a3 * B33 - a1 * B13 - a2 + a4 * B43 + C3 - Masked(mask, B43)) % WORD,
                (a1 * B14 - a2 * B24 - a3 * B34 + a4 * B44 + C4 - Masked(mask, B44)) % WORD];
    Corrected(k, a1, a2, a3, a4, temp, mask);
  }

  /** `mask & b` for a mask of all ones or all zeros. */
  function Masked(mask: int, b: int): int { if mask == 0 then 0 else b }

  lemma Corrected(k: seq<int>, a1: int, a2: int, a3: int, a4: int, temp: int, mask: int)
    requires FourWords(k)
    requires a1 == Coordinate(k, ELL1) % WORD && a2 == Coordinate(k, ELL2) % WORD
    requires a3 == Coordinate(k, ELL3) % WORD && a4 == Coordinate(k, ELL4) % WORD
    requires temp == Wrapped(k, a1, a2, a3, a4, 0) % WORD
    requires mask == if temp % 2 == 0 then WORD - 1 else 0
    ensures (temp + Masked(mask, B41)) % WORD == SubScalars(k)[0]
    ensures (Wrapped(k, a1, a2, a3, a4, 1) + Masked(mask, B42)) % WORD == SubScalars(k)[1]
    ensures (Wrapped(k, a1, a2, a3, a4, 2) - Masked(mask, B43)) % WORD == SubScalars(k)[2]
    ensures (Wrapped(k, a1, a2, a3, a4, 3) - Masked(mask, B44)) % WORD == SubScalars(k)[3]
  {
    hide Offset, Coordinate, Wrapped;
    WrappedIsOffset(k, a1, a2, a3, a4, 0);
    WrappedIsOffset(k, a1, a2, a3, a4, 1);
    WrappedIsOffset(k, a1, a2, a3, a4, 2);
    WrappedIsOffset(k, a1, a2, a3, a4, 3);
    EvenWord(Offset(k, 0));
    CongMod(Wrapped(k, a1, a2, a3, a4, 0), WORD);
    CongShift(temp, Offset(k, 0), Again(k) * B41, WORD);
    CongShift(Wrapped(k, a1, a2, a3, a4, 1), Offset(k, 1), Again(k) * B42, WORD);
    CongShift(Wrapped(k, a1, a2, a3, a4, 2), Offset(k, 2), Again(k) * B43, WORD);
    CongShift(Wrapped(k, a1, a2, a3, a4, 3), Offset(k, 3), Again(k) * B44, WORD);
  }
}
