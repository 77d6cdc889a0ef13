/** 256-bit numbers as four little-endian 64-bit words, and the truncated product of eccp2.c. */
module Words {
  import opened ModArith
  import opened BinarySums

  const WORD: int := 0x1_0000_0000_0000_0000
  const DOUBLE_WORD: int := 0x1_0000_0000_0000_0000_0000_0000_0000_0000
  const QUAD_WORD: int := 0x1_0000_0000_0000_0000_0000_0000_0000_0000_0000_0000_0000_0000_0000_0000_0000_0000

  lemma WordIsPow2()
    ensures Pow2(64) == WORD && Pow2(0) == 1
  {
    assert Pow2(8) == 256;
    Pow2Add(8, 8);
    assert Pow2(16) == 0x1_0000;
    Pow2Add(16, 16);
    assert Pow2(32) == 0x1_0000_0000;
    Pow2Add(32, 32);
  }

  lemma QuadWordIsPow2()
    ensures Pow2(256) == QUAD_WORD
  {
    WordIsPow2();
    Pow2Add(64, 64);
    assert Pow2(128) == DOUBLE_WORD;
    Pow2Add(128, 128);
  }

  ghost predicate IsWord(x: int) { 0 <= x < WORD }

  ghost predicate FourWords(s: seq<int>) {
    |s| == 4 && IsWord(s[0]) && IsWord(s[1]) && IsWord(s[2]) && IsWord(s[3])
  }

  /** The number four words stand for. */
  function Value(s: seq<int>): int
    requires |s| == 4
  {
    s[0] + WORD * (s[1] + WORD * (s[2] + WORD * s[3]))
  }

  lemma ValueRange(s: seq<int>)
    requires FourWords(s)
    ensures 0 <= Value(s) < QUAD_WORD
  {
  }

  /** 128-bit addition, which wraps around. */
  function Add128(a: int, b: int): (r: int)
    ensures 0 <= r < DOUBLE_WORD
  {
    (a + b) % DOUBLE_WORD
  }

  function High(a: int): int { a / WORD }
  function Low(a: int): int { a % WORD }

  lemma SplitWord(a: nat)
    ensures a == WORD * High(a) + Low(a) && 0 <= Low(a) < WORD && High(a) >= 0
    ensures a < DOUBLE_WORD ==> High(a) < WORD
  {
  }

  lemma FloorOfParts(high: int, low: int, x: int)
    requires x == WORD * high + low
    ensures x / WORD == high + low / WORD
  {
  }

  lemma NoWrap(a: nat, b: nat)
    requires a + b < DOUBLE_WORD
    ensures Add128(a, b) == a + b
  {
  }

  /** The carry into the next column: high halves, plus what the low halves carry. It is the whole sum
      divided by 2^64. */
  function Carried(a: nat, b: nat, c: nat, d: nat): (r: nat)
    requires a < DOUBLE_WORD && b < DOUBLE_WORD && c < DOUBLE_WORD && d < DOUBLE_WORD
    ensures r == (a + b + c + d) / WORD
  {
    hide High, Low, Add128;
    CarriedParts(a, b, c, d);
    Add128(Add128(Add128(Add128(High(a), High(b)), High(c)), High(d)), High(Low(a) + Low(b) + Low(c) + Low(d)))
  }

  lemma CarriedParts(a: nat, b: nat, c: nat, d: nat)
    requires a < DOUBLE_WORD && b < DOUBLE_WORD && c < DOUBLE_WORD && d < DOUBLE_WORD
    ensures Add128(Add128(Add128(Add128(High(a), High(b)), High(c)), High(d)), High(Low(a) + Low(b) + Low(c) + Low(d)))
         == (a + b + c + d) / WORD
  {
    hide High, Low, Add128;
    SplitWord(a);
    SplitWord(b);
    SplitWord(c);
    SplitWord(d);
    var low := Low(a) + Low(b) + Low(c) + Low(d);
    SplitWord(low);
    FloorOfParts(High(a) + High(b) + High(c) + High(d), low, a + b + c + d);
    FloorOfParts(High(low), Low(low), low);
    NoWrap(High(a), High(b));
    NoWrap(High(a) + High(b), High(c));
    NoWrap(High(a) + High(b) + High(c), High(d));
    NoWrap(High(a) + High(b) + High(c) + High(d), High(low));
  }

  /** The 128-bit product of two words. */
  function Product(x: int, y: int): (r: int)
    requires IsWord(x) && IsWord(y)
    ensures 0 <= r <= DOUBLE_WORD - 2 * WORD + 1
  {
    MulMonotone(x, y, WORD - 1);
    x * y
  }

  lemma MulMonotone(x: int, y: int, m: int)
    requires 0 <= x <= m && 0 <= y <= m
    ensures 0 <= x * y <= m * m
  {
    assert x * y <= m * y;
    assert m * y <= m * m;
  }

  lemma Row(x: int, c0: int, c1: int, c2: int, c3: int)
    ensures x * (c0 + WORD * (c1 + WORD * (c2 + WORD * c3)))
         == x * c0 + WORD * (x * c1 + WORD * (x * c2 + WORD * (x * c3)))
  {
    Spread(x, c0, c1 + WORD * (c2 + WORD * c3));
    Spread(x, c1, c2 + WORD * c3);
    Spread(x, c2, c3);
  }

  lemma Spread(x: int, a: int, b: int)
    ensures x * (a + WORD * b) == x * a + WORD * (x * b)
  {
    assert x * (a + WORD * b) == x * a + x * (WORD * b);
  }

  lemma RowOf(x: int, c: seq<int>)
    requires FourWords(c) && IsWord(x)
    ensures x * Value(c) == Product(x, c[0]) + WORD * (Product(x, c[1]) + WORD * (Product(x, c[2]) + WORD * Product(x, c[3])))
  {
    Row(x, c[0], c[1], c[2], c[3]);
  }

  lemma RowsOf(s: seq<int>, y: int)
    requires |s| == 4
    ensures Value(s) * y == s[0] * y + WORD * (s[1] * y + WORD * (s[2] * y + WORD * (s[3] * y)))
  {
    Row(y, s[0], s[1], s[2], s[3]);
  }

  /** Column n of the product holds the products of words i and j with i + j == n. */
  lemma Columns(s: seq<int>, c: seq<int>)
    requires FourWords(s) && FourWords(c)
    ensures Value(s) * Value(c) ==
      Product(s[0], c[0]) + WORD * (Product(s[1], c[0]) + Product(s[0], c[1])
        + WORD * (Product(s[2], c[0]) + Product(s[0], c[2]) + Product(s[1], c[1])
        + WORD * (Product(s[0], c[3]) + Product(s[3], c[0]) + Product(s[1], c[2]) + Product(s[2], c[1])
        + WORD * (Product(s[1], c[3]) + Product(s[3], c[1]) + Product(s[2], c[2])
        + WORD * (Product(s[2], c[3]) + Product(s[3], c[2]) + WORD * Product(s[3], c[3]))))))
  {
    hide Product, Value;
    var y := Value(c);
    RowsOf(s, y);
    RowOf(s[0], c);
    RowOf(s[1], c);
    RowOf(s[2], c);
    RowOf(s[3], c);
  }

  lemma ShiftOut(low: int, rest: int)
    ensures (low + WORD * rest) / WORD == low / WORD + rest
  {
  }

  /** Dropping four words is dividing by 2^256, and the carries of the dropped columns come one by one. */
  lemma FloorByColumns(t0: nat, t1: nat, t2: nat, t3: nat, u: nat, x: nat)
    requires x == t0 + WORD * (t1 + WORD * (t2 + WORD * (t3 + WORD * u)))
    ensures x / QUAD_WORD == (((t0 / WORD + t1) / WORD + t2) / WORD + t3) / WORD + u
  {
    ShiftOut(t0, t1 + WORD * (t2 + WORD * (t3 + WORD * u)));
    ShiftOut(t0 / WORD + t1, t2 + WORD * (t3 + WORD * u));
    ShiftOut((t0 / WORD + t1) / WORD + t2, t3 + WORD * u);
    ShiftOut(((t0 / WORD + t1) / WORD + t2) / WORD + t3, u);
    assert x / WORD / WORD == x / DOUBLE_WORD;
    assert x / DOUBLE_WORD / WORD / WORD == x / QUAD_WORD;
  }

  /** A wrapped accumulator of column 3 loses a multiple of 2^128, so 2^64 of what goes on into column 4. */
  lemma LostCarry(x: nat, y: nat)
    ensures ((x % DOUBLE_WORD + y) / WORD) % WORD == ((x + y) / WORD) % WORD
  {
    var q := x / DOUBLE_WORD;
    ShiftOut(x % DOUBLE_WORD + y, q * WORD);
    assert x + y == x % DOUBLE_WORD + y + WORD * (q * WORD);
  }

  lemma SameLowWord(x: nat, y: nat, t: nat, rest: nat)
    requires x % WORD == y % WORD
    ensures (x + t) % WORD == (y + (t + WORD * rest)) % WORD
  {
  }

  lemma LowShift(y: int, z: int, x: int)
    requires x == y + WORD * z
    ensures x % WORD == y % WORD
  {
  }

  lemma LowOfSum(a: nat, b: nat)
    ensures Low(Add128(a, b)) == Low(a + b)
  {
    LowShift((a + b) % DOUBLE_WORD, WORD * ((a + b) / DOUBLE_WORD), a + b);
  }

  lemma LowOfSums(x: nat, a: nat, b: nat, c: nat)
    ensures Low(Add128(x, Add128(Add128(a, b), c))) == (x + (a + b + c)) % WORD
  {
    LowOfSum(x, Add128(Add128(a, b), c));
    LowOfSum(Add128(a, b), c);
    LowOfSum(a, b);
    SameLowWord(Add128(Add128(a, b), c), a + b + c, x, 0) by {
      SameLowWord(Add128(a, b), a + b, c, 0);
    }
  }

  /** Why the columns give the word: x1, x2 and x3 are the carries into columns 2, 3 and 4, and only the
      accumulator x2 + p may have wrapped around. */
  lemma TopWord(t0: nat, t1: nat, t2: nat, p: nat, q: nat, t4: nat, rest: nat, x1: nat, x2: nat, x3: nat, x: nat)
    requires x == t0 + WORD * (t1 + WORD * (t2 + WORD * (p + q + WORD * (t4 + WORD * rest))))
    requires x1 == (t0 / WORD + t1) / WORD && x2 == (x1 + t2) / WORD && x3 == (Add128(x2, p) + q) / WORD
    ensures (x / QUAD_WORD) % WORD == (x3 + t4) % WORD
  {
    FloorByColumns(t0, t1, t2, p + q, t4 + WORD * rest, x);
    LostCarry(x2 + p, q);
    SameLowWord(x3, (x2 + p + q) / WORD, t4, rest);
  }

  /** The carry out of two 128-bit values leaves room for one more product. */
  lemma SmallCarry(a: nat, b: nat, p: nat)
    requires a < DOUBLE_WORD && b <= DOUBLE_WORD - 2 * WORD + 1 && p <= DOUBLE_WORD - 2 * WORD + 1
    ensures 0 <= (a + b) / WORD && (a + b) / WORD + p < DOUBLE_WORD
  {
  }

  /** The word of s * c at weight 2^256, computed by columns in 128-bit accumulators: every accumulator
      before the last two columns is exact, and what the others lose is a multiple of 2^320. */
  method MulTruncate(s: seq<int>, c: seq<int>) returns (out: int)
    requires FourWords(s) && FourWords(c)
    ensures out == (Value(s) * Value(c) / QUAD_WORD) % WORD
  {
    hide Product, Carried, Value, Low, Add128;
    var tt2 := Product(s[0], c[0]);
    var tt1 := Add128(Product(s[1], c[0]), High(tt2));
    SmallCarry(tt2, 0, Product(s[1], c[0]));
    NoWrap(Product(s[1], c[0]), High(tt2));

    tt2 := Product(s[0], c[1]);
    tt1 := Carried(tt1, tt2, 0, 0);
    ghost var x1 := tt1;
    SmallCarry(Product(s[1], c[0]) + High(Product(s[0], c[0])), tt2, Product(s[2], c[0]));
    NoWrap(x1, Product(s[2], c[0]));

    tt1 := Add128(tt1, Product(s[2], c[0]));
    tt2 := Product(s[0], c[2]);
    var tt3 := Product(s[1], c[1]);
    tt1 := Carried(tt1, tt2, tt3, 0);
    ghost var x2 := tt1;

    tt1 := Add128(tt1, Product(s[0], c[3]));
    tt2 := Product(s[3], c[0]);
    tt3 := Product(s[1], c[2]);
    var tt4 := Product(s[2], c[1]);
    tt1 := Carried(tt1, tt2, tt3, tt4);
    ghost var x3 := tt1;

    tt1 := Add128(tt1, Add128(Add128(Product(s[1], c[3]), Product(s[3], c[1])), Product(s[2], c[2])));
    out := Low(tt1);

    LowOfSums(x3, Product(s[1], c[3]), Product(s[3], c[1]), Product(s[2], c[2]));
    Columns(s, c);
    TopWord(Product(s[0], c[0]), Product(s[1], c[0]) + Product(s[0], c[1]),
            Product(s[2], c[0]) + Product(s[0], c[2]) + Product(s[1], c[1]),
            Product(s[0], c[3]), Product(s[3], c[0]) + Product(s[1], c[2]) + Product(s[2], c[1]),
            Product(s[1], c[3]) + Product(s[3], c[1]) + Product(s[2], c[2]),
            Product(s[2], c[3]) + Product(s[3], c[2]) + WORD * Product(s[3], c[3]), x1, x2, x3, Value(s) * Value(c));
  }
}
