/** `Montgomery_inversion_mod_order` of crypto_util.c: a^(order-2) by sliding windows over the bits of
    order-2, which are shifted out of four words in place. */
module MontgomeryInversion {
  import opened ModArith
  import opened BinarySums
  import opened Words
  import opened Montgomery

  const ORDER_WORDS: seq<int> := [0x2FB2540EC7768CE7, 0xDFBD004DFE0F7999, 0xF05397829CBC14E5, 0x0029CBC14E5E0A72]

  /** `SHIFTL` by count: the vacated low bits are disjoint from what comes in, so exclusive-or is addition. */
  function ShiftedUp(high: int, low: int, count: nat): int
    requires 1 <= count <= 5
  {
    high * Pow2(count) % WORD + low / Pow2(64 - count)
  }

  /** What leaves a word on top when it is shifted. */
  function Out(x: int, count: nat): int
    requires 1 <= count <= 5
  {
    x / Pow2(64 - count)
  }

  lemma ShiftBy(x: int, p: int, h: int)
    requires IsWord(x) && p > 0 && h > 0 && p * h == WORD
    ensures p * x == WORD * (x / h) + x * p % WORD
    ensures 0 <= x / h < p && 0 <= x * p % WORD <= WORD - p
  {
    var q, r := x / h, x % h;
    assert x == h * q + r;
    Spread(p, h, q, r);
    ScaledBelow(p, r, h);
    DivModUnique(x * p, q, p * r, WORD);
    QuotientBelow(x, h, p, q);
  }

  lemma Spread(p: int, h: int, q: int, r: int)
    ensures p * (h * q + r) == (p * h) * q + p * r
  {
    MulAssoc(p, h, q);
  }

  lemma ScaledBelow(p: int, r: int, h: int)
    requires p > 0 && 0 <= r < h
    ensures 0 <= p * r <= p * h - p
  {
    assert p * r <= p * (h - 1);
  }

  lemma QuotientBelow(x: int, h: int, p: int, q: int)
    requires h > 0 && 0 <= x < p * h && h * q <= x && q >= 0
    ensures q < p
  {
    if q >= p {
      Monotone(h, p, q);
    }
  }

  lemma Monotone(h: int, p: int, q: int)
    requires h > 0 && p <= q
    ensures p * h <= h * q
  {
  }

  lemma ShiftWord(x: int, count: nat)
    requires IsWord(x) && 1 <= count <= 5
    ensures Pow2(count) * x == WORD * Out(x, count) + x * Pow2(count) % WORD
    ensures 0 <= Out(x, count) < Pow2(count) && 0 <= x * Pow2(count) % WORD <= WORD - Pow2(count)
  {
    WordIsPow2();
    Pow2Add(count, 64 - count);
    hide Pow2;
    ShiftBy(x, Pow2(count), Pow2(64 - count));
  }

  /** Words whose multiples by p split into what leaves on top and what stays. */
  ghost predicate Splits(m: seq<int>, p: int, outs: seq<int>, lows: seq<int>) {
    && |m| == |outs| == |lows| == 4 && p > 0
    && forall j :: 0 <= j < 4 ==> p * m[j] == WORD * outs[j] + lows[j] && 0 <= outs[j] < p && 0 <= lows[j] <= WORD - p
  }

  lemma ShiftedValue(m: seq<int>, p: int, outs: seq<int>, lows: seq<int>, t: seq<int>)
    requires Splits(m, p, outs, lows) && |t| == 4
    requires t[0] == lows[0] && t[1] == lows[1] + outs[0] && t[2] == lows[2] + outs[1] && t[3] == lows[3] + outs[2]
    ensures FourWords(t) && Value(t) == p * Value(m) - QUAD_WORD * outs[3]
  {
    Row(p, m[0], m[1], m[2], m[3]);
  }

  /** What leaves each word, and what stays. */
  function Outs(m: seq<int>, count: nat): (r: seq<int>)
    requires |m| == 4 && 1 <= count <= 5
    ensures |r| == 4 && forall j :: 0 <= j < 4 ==> r[j] == Out(m[j], count)
  {
    [Out(m[0], count), Out(m[1], count), Out(m[2], count), Out(m[3], count)]
  }

  function Lows(m: seq<int>, count: nat): (r: seq<int>)
    requires |m| == 4 && 1 <= count <= 5
    ensures |r| == 4 && forall j :: 0 <= j < 4 ==> r[j] == m[j] * Pow2(count) % WORD
  {
    [m[0] * Pow2(count) % WORD, m[1] * Pow2(count) % WORD, m[2] * Pow2(count) % WORD, m[3] * Pow2(count) % WORD]
  }

  lemma Combined(high: int, low: int, count: nat)
    requires 1 <= count <= 5
    ensures ShiftedUp(high, low, count) == high * Pow2(count) % WORD + Out(low, count)
  {
  }

  lemma WordsSplit(m: seq<int>, count: nat)
    requires FourWords(m) && 1 <= count <= 5
    ensures Splits(m, Pow2(count), Outs(m, count), Lows(m, count))
    ensures forall j :: 1 <= j < 4 ==> ShiftedUp(m[j], m[j - 1], count) == Lows(m, count)[j] + Outs(m, count)[j - 1]
  {
    hide Pow2, Out, ShiftedUp;
    Combined(m[1], m[0], count);
    Combined(m[2], m[1], count);
    Combined(m[3], m[2], count);
    ShiftWord(m[0], count);
    ShiftWord(m[1], count);
    ShiftWord(m[2], count);
    ShiftWord(m[3], count);
  }

  /** All four words to the left, from the top down. */
  method ShiftLeft(m: array<int>, count: nat)
    requires m.Length == 4 && FourWords(m[..]) && 1 <= count <= 5
    modifies m
    ensures FourWords(m[..])
    ensures Value(m[..]) == Pow2(count) * Value(old(m[..])) - QUAD_WORD * Out(old(m[3]), count)
  {
    hide FourWords, Value, ShiftedUp, Splits, Outs, Lows, Out, Pow2;
    ghost var s := m[..];
    for j := 3 downto 0
      invariant forall t :: j < t < 4 ==> m[t] == ShiftedUp(s[t], s[t - 1], count)
      invariant forall t :: 0 <= t <= j ==> m[t] == s[t]
    {
      m[j + 1] := ShiftedUp(m[j + 1], m[j], count);
    }
    m[0] := m[0] * Pow2(count) % WORD;
    WordsSplit(s, count);
    ShiftedValue(s, Pow2(count), Outs(s, count), Lows(s, count), m[..]);
  }

  /** All four words left by one, from the bottom up; the bit that leaves the top is returned. */
  method ShiftOut(m: array<int>) returns (bit: int)
    requires m.Length == 4 && FourWords(m[..])
    modifies m
    ensures FourWords(m[..]) && (bit == 0 || bit == 1)
    ensures Value(m[..]) == 2 * Value(old(m[..])) - QUAD_WORD * bit
  {
    hide FourWords, Value, ShiftedUp, Out, Splits, Outs, Lows, Pow2;
    ghost var s := m[..];
    var temp := 0;
    bit := 0;
    for j := 0 to 4
      invariant temp == if j == 0 then 0 else Out(s[j - 1], 1)
      invariant bit == temp
      invariant j > 0 ==> m[0] == s[0] * Pow2(1) % WORD
      invariant forall t :: 1 <= t < j ==> m[t] == ShiftedUp(s[t], s[t - 1], 1)
      invariant forall t :: j <= t < 4 ==> m[t] == s[t]
    {
      bit := m[j] / 0x8000_0000_0000_0000;
      TopBit(s, j, temp);
      m[j] := m[j] * 2 % WORD + temp;
      temp := bit;
    }
    WordsSplit(s, 1);
    ShiftedValue(s, Pow2(1), Outs(s, 1), Lows(s, 1), m[..]);
    OneBit(s);
  }

  lemma TopBit(s: seq<int>, j: nat, temp: int)
    requires j < |s| && temp == if j == 0 then 0 else Out(s[j - 1], 1)
    ensures s[j] / 0x8000_0000_0000_0000 == Out(s[j], 1) && Pow2(1) == 2
    ensures s[j] * 2 % WORD + temp == if j == 0 then s[j] * Pow2(1) % WORD else ShiftedUp(s[j], s[j - 1], 1)
  {
    WordIsPow2();
    assert Pow2(64) == 2 * Pow2(63);
  }

  lemma OneBit(s: seq<int>)
    requires FourWords(s)
    ensures Pow2(1) == 2 && (Out(s[3], 1) == 0 || Out(s[3], 1) == 1)
  {
    ShiftWord(s[3], 1);
  }

  const EXPONENT: nat := ORDER - 2

  /** Of the exponent n, i bits are still in v, against its top end at q; e is what the others make. */
  ghost predicate Shared(n: int, q: int, e: int, v: int, i: int) {
    0 <= i <= 256 && e >= 0 && 0 <= v < q && n * Pow2(256 - i) == e * q + v
  }

  lemma Scaled(n: int, x: int, p: int, e: int, q: int, v: int)
    requires n * x == e * q + v
    ensures n * (p * x) == (p * e) * q + p * v
  {
    MulAssoc(p, n, x);
    MulAssoc(n, p, x);
    assert p * (e * q + v) == p * (e * q) + p * v;
    MulAssoc(p, e, q);
  }

  /** Shifting out `count` bits worth `out` moves them from v to e. */
  lemma Consume(n: int, q: int, e: int, v: int, i: int, count: nat, out: nat, e': int, v': int)
    requires Shared(n, q, e, v, i) && count <= i
    requires e' == Pow2(count) * e + out && v' == Pow2(count) * v - q * out && 0 <= v' < q
    ensures Shared(n, q, e', v', i - count)
  {
    Pow2Add(count, 256 - i);
    Scaled(n, Pow2(256 - i), Pow2(count), e, q, v);
    NonNegative(Pow2(count), e);
    Collect(Pow2(count) * e, out, q, Pow2(count) * v);
  }

  lemma Collect(x: int, out: int, q: int, y: int)
    ensures x * q + y == (x + out) * q + (y - q * out)
  {
  }

  /** An odd window never reaches past the last bit. */
  lemma WindowFits(n: int, q: int, e: int, v: int, i: int, count: nat, out: int)
    requires Shared(n, q, e, v, i) && q == Pow2(256) && count >= 1 && out % 2 == 1 && 0 <= Pow2(count) * v - q * out < q
    ensures count <= i
  {
    if count > i {
      var c := count - i;
      Pow2Add(count, 256 - i);
      Pow2Add(c, 256);
      Scaled(n, Pow2(256 - i), Pow2(count), e, q, v);
      MulAssoc(n, Pow2(c), q);
      var x := n * Pow2(c) - Pow2(count) * e;
      Factored(n * Pow2(c), Pow2(count) * e, q, Pow2(count) * v, x);
      SameMultiple(q, x, out);
      EvenDifference(n, Pow2(c - 1), Pow2(count - 1), e);
    }
  }

  lemma Factored(a: int, b: int, q: int, y: int, x: int)
    requires a * q == b * q + y && x == a - b
    ensures y == q * x
  {
  }

  lemma SameMultiple(q: int, x: int, out: int)
    requires 0 <= q * x - q * out < q
    ensures x == out
  {
    MulLess(x - out, q);
  }

  lemma EvenDifference(n: int, p: int, q: int, e: int)
    ensures (n * (2 * p) - (2 * q) * e) % 2 == 0
  {
    MulAssoc(2, q, e);
    assert n * (2 * p) - (2 * q) * e == 2 * (n * p - q * e);
  }

  lemma OutHalves(x: int, count: nat)
    requires IsWord(x) && 2 <= count <= 5
    ensures Out(x, count - 1) == Out(x, count) / 2
  {
    assert Pow2(64 - (count - 1)) == 2 * Pow2(64 - count);
    HalfQuotient(x, Pow2(64 - count));
  }

  lemma HalfQuotient(x: nat, h: int)
    requires h > 0
    ensures x / (2 * h) == x / h / 2
  {
    var q, r := x / h, x % h;
    assert x == q * h + r;
    MulAssoc(q / 2, 2, h);
    MulAssoc(2, q / 2, h);
    assert q * h == (2 * (q / 2) + q % 2) * h == (q / 2) * (2 * h) + q % 2 * h;
    DivModUnique(x, q / 2, q % 2 * h + r, 2 * h);
  }

  /** The longest odd run of at most five bits at the top, given that the top bit is 1. */
  method Window(x: int) returns (temp: int, count: nat)
    requires IsWord(x) && Out(x, 1) == 1
    ensures 1 <= count <= 5 && temp == Out(x, count) && temp % 2 == 1 && 0 < temp < 32
  {
    hide Out;
    count := 5;
    temp := TopFive(x);
    ShiftWord(x, 5);
    assert Pow2(5) == 32;
    var mod2 := temp % 2;
    while mod2 == 0
      invariant 1 <= count <= 5 && temp == Out(x, count) && mod2 == temp % 2
      invariant 0 <= temp < 32
      decreases count
    {
      OutHalves(x, count);
      temp := temp / 2;
      mod2 := temp % 2;
      count := count - 1;
    }
  }

  /** `(x & 0xF800...000) >> 59` */
  function TopFive(x: int): (r: int)
    requires IsWord(x)
    ensures r == Out(x, 5)
  {
    WordIsPow2();
    Pow2Add(5, 59);
    assert Pow2(5) == 32;
    x / 0x0800_0000_0000_0000
  }

  ghost predicate IsTable(table: seq<int>, a: int, n: nat) {
    n <= |table| && forall j :: 0 <= j < n ==> Form(table[j], Pow(a, 2 * j + 1))
  }

  /** table[j] = a^(2j+1) */
  method OddPowers(ma: int, ghost a: int, table: array<int>)
    requires Form(ma, a) && table.Length == 16
    modifies table
    ensures IsTable(table[..], a, 16)
  {
    hide Form;
    assert Pow(a, 1) == a * Pow(a, 0) == a;
    table[0] := ma;
    var inputA := Multiply(ma, ma, a, a);
    for j := 0 to 15
      invariant IsTable(table[..], a, j + 1)
    {
      ghost var t := table[..];
      var next := Multiply(table[j], inputA, Pow(a, 2 * j + 1), a * a);
      NextOdd(a, j);
      table[j + 1] := next;
      assert table[..] == t[j + 1 := next];
    }
  }

  lemma NextOdd(a: int, j: nat)
    ensures Pow(a, 2 * j + 1) * (a * a) == Pow(a, 2 * (j + 1) + 1)
  {
    PowAdd(a, 2 * j + 1, 2);
    assert Pow(a, 2) == a * Pow(a, 1) && Pow(a, 1) == a * Pow(a, 0);
  }

  lemma Doubled(a: int, e: nat)
    ensures Pow(a, e) * Pow(a, e) == Pow(a, 2 * e)
  {
    PowAdd(a, e, e);
  }

  /** mc^(2^count) */
  method Squares(x: int, ghost a: int, ghost e: nat, count: nat) returns (mc: int)
    requires Form(x, Pow(a, e))
    ensures Pow2(count) * e >= 0 && Form(mc, Pow(a, Pow2(count) * e))
  {
    hide Form, Pow;
    mc := x;
    ghost var f := e;
    for j := 0 to count
      invariant f >= 0 && f == Pow2(j) * e && Form(mc, Pow(a, f))
    {
      mc := Multiply(mc, mc, Pow(a, f), Pow(a, f));
      Doubled(a, f);
      MulAssoc(2, Pow2(j), e);
      f := 2 * f;
    }
  }

  lemma Start(m: seq<int>)
    requires |m| == 4 && m == [ORDER_WORDS[0] - 2, ORDER_WORDS[1], ORDER_WORDS[2], ORDER_WORDS[3]]
    ensures FourWords(m) && Shared(EXPONENT, QUAD_WORD, 0, Value(m), 256)
  {
    assert Pow2(0) == 1;
  }

  /** While no bit has come out the exponent is not exhausted. */
  lemma NotExhausted(v: int, i: int)
    requires Shared(EXPONENT, QUAD_WORD, 0, v, i)
    ensures i > 0
  {
    if i == 0 {
      QuadWordIsPow2();
      assert false;
    }
  }

  lemma Exhausted(e: int, v: int)
    requires Shared(EXPONENT, QUAD_WORD, e, v, 0)
    ensures e == EXPONENT
  {
    QuadWordIsPow2();
    hide Pow2;
    assert (EXPONENT - e) * QUAD_WORD == v;
  }

  /** One bit, whatever it is. */
  lemma ConsumeBit(e: int, v: int, i: int, bit: nat, v': int)
    requires Shared(EXPONENT, QUAD_WORD, e, v, i) && i > 0 && v' == 2 * v - QUAD_WORD * bit && 0 <= v' < QUAD_WORD
    ensures Shared(EXPONENT, QUAD_WORD, 2 * e + bit, v', i - 1)
  {
    assert Pow2(1) == 2;
    Consume(EXPONENT, QUAD_WORD, e, v, i, 1, bit, 2 * e + bit, v');
  }

  /** The leading bit goes out: only then does the accumulator, a itself, stand for the bits consumed. */
  method SkipToFirstOne(m: array<int>) returns (i: int)
    requires m.Length == 4 && m[..] == [ORDER_WORDS[0] - 2, ORDER_WORDS[1], ORDER_WORDS[2], ORDER_WORDS[3]]
    modifies m
    ensures FourWords(m[..]) && Shared(EXPONENT, QUAD_WORD, 1, Value(m[..]), i) && i >= 0
  {
    hide FourWords, Value, Shared;
    Start(m[..]);
    i := 256;
    var bit := 0;
    while bit != 1
      invariant FourWords(m[..]) && (bit == 0 || bit == 1)
      invariant Shared(EXPONENT, QUAD_WORD, bit, Value(m[..]), i)
      invariant i >= 0
      decreases i
    {
      ghost var v := Value(m[..]);
      NotExhausted(v, i);
      i := i - 1;
      bit := ShiftOut(m);
      ValueRange(m[..]);
      ConsumeBit(0, v, i + 1, bit, Value(m[..]));
    }
  }

  /** The Montgomery form of a^(ORDER-2) from that of a: the accumulator is a to the bits consumed, five at a
      time at most and none twice. */
  method InversionModOrder(ma: int, ghost a: int) returns (mc: int)
    requires Form(ma, a)
    ensures Form(mc, Pow(a, EXPONENT))
  {
    hide Form, FourWords, Value, Shared, IsTable, Out, Pow, Pow2;
    var modulus2 := new int[4][ORDER_WORDS[0] - 2, ORDER_WORDS[1], ORDER_WORDS[2], ORDER_WORDS[3]];
    var table := new int[16](_ => 0);
    OddPowers(ma, a, table);
    ghost var t := table[..];
    var i := SkipToFirstOne(modulus2);
    mc := ma;
    ghost var e := 1;
    PowOne(a);
    while i > 0
      invariant FourWords(modulus2[..]) && table[..] == t
      invariant e >= 0 && Shared(EXPONENT, QUAD_WORD, e, Value(modulus2[..]), i) && i >= 0
      invariant Form(mc, Pow(a, e))
      decreases i
    {
      i, mc, e := Turn(modulus2, table[..], i, mc, a, e);
    }
    Exhausted(e, Value(modulus2[..]));
  }

  lemma PowOne(a: int)
    ensures Pow(a, 1) == a
  {
    assert Pow(a, 1) == a * Pow(a, 0);
  }

  lemma Appended(a: int, e: nat, p: int, out: nat)
    requires p * e >= 0
    ensures Pow(a, p * e) * Pow(a, out) == Pow(a, p * e + out)
  {
    PowAdd(a, p * e, out);
  }

  lemma Entry(table: seq<int>, a: int, temp: int)
    requires IsTable(table, a, 16) && 0 < temp < 32 && temp % 2 == 1
    ensures 0 <= (temp - 1) / 2 < |table| && Form(table[(temp - 1) / 2], Pow(a, temp))
  {
    var j := (temp - 1) / 2;
    assert 2 * j + 1 == temp;
  }

  /** One turn of the evaluation: a 0 bit is squared in, a 1 bit opens a window. */
  method Turn(m: array<int>, table: seq<int>, i: int, x: int, ghost a: int, ghost e: nat)
    returns (i': int, mc: int, ghost e': nat)
    requires m.Length == 4 && FourWords(m[..]) && IsTable(table, a, 16)
    requires Shared(EXPONENT, QUAD_WORD, e, Value(m[..]), i) && i > 0 && Form(x, Pow(a, e))
    modifies m
    ensures FourWords(m[..]) && Shared(EXPONENT, QUAD_WORD, e', Value(m[..]), i') && 0 <= i' < i && Form(mc, Pow(a, e'))
  {
    hide Form, FourWords, Value, Shared, IsTable, Out, Pow, Pow2;
    ghost var s := m[..];
    OneBit(s);
    TopBit(s, 3, Out(s[2], 1));
    WordsOf(s);
    var bit := m[3] / 0x8000_0000_0000_0000;
    if bit == 0 {
      mc := Multiply(x, x, Pow(a, e), Pow(a, e));
      Doubled(a, e);
      i' := i - 1;
      ShiftLeft(m, 1);
      ValueRange(m[..]);
      e' := 2 * e;
      ConsumeBit(e, Value(s), i, 0, Value(m[..]));
    } else {
      var temp, count := Window(m[3]);
      mc := Squares(x, a, e, count);
      Entry(table, a, temp);
      mc := Multiply(mc, table[(temp - 1) / 2], Pow(a, Pow2(count) * e), Pow(a, temp));
      Appended(a, e, Pow2(count), temp);
      ShiftLeft(m, count);
      ValueRange(m[..]);
      QuadWordIsPow2();
      WindowFits(EXPONENT, QUAD_WORD, e, Value(s), i, count, temp);
      i' := i - count;
      e' := Pow2(count) * e + temp;
      Consume(EXPONENT, QUAD_WORD, e, Value(s), i, count, temp, e', Value(m[..]));
    }
  }

  lemma WordsOf(s: seq<int>)
    requires FourWords(s)
    ensures |s| == 4 && IsWord(s[3])
  {
  }

  /** With ORDER prime, coming from and returning to ordinary numbers this is the modular inverse. */
  method InverseModOrder(a: int) returns (c: int)
    requires 0 <= a < QUAD_WORD && Prime(ORDER) && a % ORDER != 0
    ensures 0 <= c < ORDER && (a * c) % ORDER == 1
  {
    var ma := ToMontgomery(a);
    var mc := InversionModOrder(ma, a);
    c := FromMontgomery(mc, Pow(a, EXPONENT));
    IsInverse(a, c);
  }

  lemma IsInverse(a: int, c: int)
    requires Prime(ORDER) && a % ORDER != 0 && c == Pow(a, EXPONENT) % ORDER
    ensures (a * c) % ORDER == 1
  {
    FermatInverse(a, ORDER);
    CongMod(Pow(a, EXPONENT), ORDER);
    CongScale(c, Pow(a, EXPONENT), a, ORDER);
  }
}
