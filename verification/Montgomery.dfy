/** Montgomery arithmetic modulo the order of the curve's prime subgroup: the multiplication of fp_x64.h and
    the conversions of crypto_util.c, on 256-bit numbers. */
module Montgomery {
  import opened ModArith
  import opened Words

  const ORDER: int := 0x0029CBC14E5E0A72F05397829CBC14E5DFBD004DFE0F79992FB2540EC7768CE7
  /** 2^512 mod ORDER */
  const R_SQUARED: int := 0x0006A5F16AC8F9D33D01B7C72136F61C173EA5AAEA6B387DC81DB8795FF3D621
  /** -1/ORDER mod 2^256 */
  const MINUS_INVERSE: int := 0xF32702FDAFC1C074BCE409ED76B5DB21D75E78B8D1FCDCF3E12FE5F079BC3929
  /** 1/2^256 mod ORDER: 2^256 is a unit, whether or not ORDER is prime. */
  const R_INVERSE: int := 0x0027B2C704D8C6D10DD5B24AC38118775D78FA35B9B3D9C001C9FA340FC44477

  lemma Constants()
    ensures Cong(ORDER * MINUS_INVERSE, -1, QUAD_WORD)
    ensures Cong(R_SQUARED, QUAD_WORD * QUAD_WORD, ORDER)
    ensures Cong(QUAD_WORD * R_INVERSE, 1, ORDER)
  {
  }

  /** a numbers 0 to ORDER-1 standing for a mod ORDER, scaled by 2^256. */
  ghost predicate Form(x: int, a: int) {
    0 <= x < ORDER && Cong(x, a * QUAD_WORD, ORDER)
  }

  /** The middle term is the multiple of ORDER that makes the sum divisible by 2^256. */
  lemma Divisible(p: int)
    ensures (p + p * MINUS_INVERSE % QUAD_WORD * ORDER) % QUAD_WORD == 0
  {
    hide Cong;
    Constants();
    var q := p * MINUS_INVERSE;
    CongMod(q, QUAD_WORD);
    CongScale(q % QUAD_WORD, q, ORDER, QUAD_WORD);
    CongScale(ORDER * MINUS_INVERSE, -1, p, QUAD_WORD);
    assert q * ORDER == p * (ORDER * MINUS_INVERSE) by { Regroup(p, MINUS_INVERSE, ORDER); }
    CongTrans(q % QUAD_WORD * ORDER, q * ORDER, p * -1, QUAD_WORD);
    CongAddSelf(p, q % QUAD_WORD * ORDER);
  }

  lemma Regroup(a: int, b: int, c: int)
    ensures (a * b) * c == a * (c * b)
  {
    MulAssoc(a, b, c);
  }

  lemma CongAddSelf(p: int, x: int)
    requires Cong(x, -p, QUAD_WORD)
    ensures (p + x) % QUAD_WORD == 0
  {
    CongZero(x, -p, QUAD_WORD);
  }

  /** Only the low 256 bits of the product count for the middle term. */
  lemma LowPartSuffices(p: int)
    ensures (p % QUAD_WORD) * MINUS_INVERSE % QUAD_WORD == p * MINUS_INVERSE % QUAD_WORD
  {
    CongMod(p, QUAD_WORD);
    CongScale(p % QUAD_WORD, p, MINUS_INVERSE, QUAD_WORD);
  }

  lemma NonNegative(x: int, y: int)
    requires 0 <= x && 0 <= y
    ensures 0 <= x * y
  {
  }

  /** ma * mb / 2^256 mod ORDER. */
  method MontgomeryMultiply(ma: int, mb: int) returns (mc: int)
    requires 0 <= ma < QUAD_WORD && 0 <= mb < QUAD_WORD && ma * mb < QUAD_WORD * ORDER
    ensures 0 <= mc < ORDER && Cong(mc * QUAD_WORD, ma * mb, ORDER)
  {
    NonNegative(ma, mb);
    mc := Reduce(ma * mb);
  }

  /** A product, reduced. */
  method Reduce(P: nat) returns (mc: int)
    requires P < QUAD_WORD * ORDER
    ensures 0 <= mc < ORDER && Cong(mc * QUAD_WORD, P, ORDER)
  {
    hide Cong;
    var Q := (P % QUAD_WORD) * MINUS_INVERSE % QUAD_WORD;
    var temp := Q * ORDER;
    LowPartSuffices(P);
    Divisible(P);
    Reduced(P, Q, temp);
    NoCarry(P + temp);
    var cout := (P + temp) / (QUAD_WORD * QUAD_WORD);
    temp := (P + temp) % (QUAD_WORD * QUAD_WORD);
    mc := FinalSubtraction(temp / QUAD_WORD, cout);
  }

  lemma NoCarry(x: nat)
    requires x < QUAD_WORD * QUAD_WORD
    ensures x / (QUAD_WORD * QUAD_WORD) == 0 && x % (QUAD_WORD * QUAD_WORD) == x
  {
  }

  /** Subtracts ORDER from (cout, mc) and adds it back after a borrow. */
  method FinalSubtraction(t: int, cout: int) returns (mc: int)
    requires 0 <= t < 2 * ORDER && cout == 0
    ensures mc == if t < ORDER then t else t - ORDER
  {
    var bout := if t < ORDER then 1 else 0;
    mc := (t - ORDER) % QUAD_WORD;
    // all ones after a borrow, else 0
    var mask := (cout - bout) % WORD;
    mc := (mc + if mask == 0 then 0 else ORDER) % QUAD_WORD;
  }

  /** The sum is below 2^512, so no carry comes out of it, and its quotient is below 2 * ORDER. */
  lemma Reduced(P: nat, q: nat, temp: nat)
    requires P < QUAD_WORD * ORDER && q < QUAD_WORD && temp == q * ORDER && (P + temp) % QUAD_WORD == 0
    ensures (P + temp) / QUAD_WORD < 2 * ORDER && P + temp < QUAD_WORD * QUAD_WORD
    ensures Cong((P + temp) / QUAD_WORD * QUAD_WORD, P, ORDER)
    ensures Cong(((P + temp) / QUAD_WORD - ORDER) * QUAD_WORD, P, ORDER)
  {
    assert (P + temp) / QUAD_WORD * QUAD_WORD == P + temp;
    CongWitness(P + temp, P, q, ORDER);
    CongWitness(P + temp - ORDER * QUAD_WORD, P, q - QUAD_WORD, ORDER);
  }

  lemma Unscale(x: int, y: int)
    requires Cong(x * QUAD_WORD, y * QUAD_WORD, ORDER)
    ensures Cong(x, y, ORDER)
  {
    hide Cong;
    Constants();
    CongScale(x * QUAD_WORD, y * QUAD_WORD, R_INVERSE, ORDER);
    CongScale(QUAD_WORD * R_INVERSE, 1, x, ORDER);
    CongScale(QUAD_WORD * R_INVERSE, 1, y, ORDER);
    MulAssoc(x, QUAD_WORD, R_INVERSE);
    MulAssoc(y, QUAD_WORD, R_INVERSE);
    CongSym(x * (QUAD_WORD * R_INVERSE), x * 1, ORDER);
    CongTrans(x * 1, x * (QUAD_WORD * R_INVERSE), y * (QUAD_WORD * R_INVERSE), ORDER);
    CongTrans(x * 1, y * (QUAD_WORD * R_INVERSE), y * 1, ORDER);
  }

  /** Multiplication of scaled numbers. */
  method Multiply(x: int, y: int, ghost a: int, ghost b: int) returns (z: int)
    requires Form(x, a) && Form(y, b)
    ensures Form(z, a * b)
  {
    ProductSmall(x, y);
    z := MontgomeryMultiply(x, y);
    FormProduct(x, y, z, a, b);
  }

  lemma ProductBelow(x: int, y: int, m: int, n: int)
    requires 0 <= x < m && 0 <= y < n
    ensures 0 <= x * y < m * n
  {
    assert x * y <= x * n;
    assert x * n < m * n;
  }

  lemma ProductSmall(x: int, y: int)
    requires 0 <= x < QUAD_WORD && 0 <= y < ORDER
    ensures 0 <= x * y < QUAD_WORD * ORDER
  {
    ProductBelow(x, y, QUAD_WORD, ORDER);
  }

  lemma FormProduct(x: int, y: int, z: int, a: int, b: int)
    requires Form(x, a) && Form(y, b) && 0 <= z < ORDER && Cong(z * QUAD_WORD, x * y, ORDER)
    ensures Form(z, a * b)
  {
    hide Cong;
    CongMul(x, a * QUAD_WORD, y, b * QUAD_WORD, ORDER);
    CongTrans(z * QUAD_WORD, x * y, (a * QUAD_WORD) * (b * QUAD_WORD), ORDER);
    Pairs(a, b, QUAD_WORD);
    Unscale(z, (a * b) * QUAD_WORD);
  }

  lemma Pairs(a: int, b: int, r: int)
    ensures (a * r) * (b * r) == ((a * b) * r) * r
  {
    Interchange(a, r, b, r);
    MulAssoc(a * b, r, r);
  }

  method ToMontgomery(a: int) returns (c: int)
    requires 0 <= a < QUAD_WORD
    ensures Form(c, a)
  {
    ProductSmall(a, R_SQUARED);
    c := MontgomeryMultiply(a, R_SQUARED);
    Entered(a, c);
  }

  lemma Entered(a: int, c: int)
    requires Cong(c * QUAD_WORD, a * R_SQUARED, ORDER)
    ensures Cong(c, a * QUAD_WORD, ORDER)
  {
    hide Cong;
    Constants();
    CongScale(R_SQUARED, QUAD_WORD * QUAD_WORD, a, ORDER);
    CongTrans(c * QUAD_WORD, a * R_SQUARED, a * (QUAD_WORD * QUAD_WORD), ORDER);
    MulAssoc(a, QUAD_WORD, QUAD_WORD);
    Unscale(c, a * QUAD_WORD);
  }

  method FromMontgomery(x: int, ghost a: int) returns (c: int)
    requires Form(x, a)
    ensures c == a % ORDER
  {
    c := MontgomeryMultiply(x, 1);
    Left(x, a, c);
  }

  lemma Left(x: int, a: int, c: int)
    requires Form(x, a) && 0 <= c < ORDER && Cong(c * QUAD_WORD, x * 1, ORDER)
    ensures c == a % ORDER
  {
    hide Cong;
    CongTrans(c * QUAD_WORD, x * 1, a * QUAD_WORD, ORDER);
    Unscale(c, a);
    CongMod(a, ORDER);
    CongSym(a % ORDER, a, ORDER);
    CongTrans(c, a, a % ORDER, ORDER);
    CongSmall(c, a % ORDER, ORDER);
  }

  /** Reduction of any 256-bit number, through the scaled form. */
  method ModuloOrder(a: int) returns (c: int)
    requires 0 <= a < QUAD_WORD
    ensures c == a % ORDER
  {
    var ma := ToMontgomery(a);
    c := FromMontgomery(ma, a);
  }
}
