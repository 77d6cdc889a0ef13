/** `mLSB_set_recode` of eccp2_core.c: the modified LSB-set form of a scalar, for the comb of the fixed-base
    multiplication. The scalar's four words are shifted in place. */
module MlsbRecode {
  import opened ModArith
  import opened BinarySums
  import opened Words

  const D: nat := 50
  const L: nat := 250
  /** What -1 is in an unsigned digit. */
  const MINUS_ONE: int := 0xFFFF_FFFF

  /** The sign an entry of the sign row stands for. */
  function RowSign(x: int): int { if x == 0 then 1 else -1 }

  /** The signed binary digits: the sign row itself, and above it 0 or the sign of the column. */
  function SignedDigits(digits: seq<int>): (r: seq<int>)
    requires |digits| >= L
    ensures |r| == L
    ensures forall i :: 0 <= i < D ==> r[i] == RowSign(digits[i])
    ensures forall i :: D <= i < L ==> r[i] == RowSign(digits[i % D]) * digits[i]
  {
    seq(L, i requires 0 <= i < L => if i < D then RowSign(digits[i]) else RowSign(digits[i % D]) * digits[i])
  }

  /** `SHIFTR` by one: the vacated top bit is disjoint from the shifted word, so exclusive-or is addition. */
  function Shifted(low: int, high: int): int { low / 2 + high * 0x8000_0000_0000_0000 % WORD }

  /** The words a bit further right. */
  method ShiftRight(scalar: array<int>)
    requires scalar.Length == 4 && FourWords(scalar[..])
    modifies scalar
    ensures FourWords(scalar[..]) && Value(scalar[..]) == Value(old(scalar[..])) / 2
  {
    hide Value, FourWords, Shifted;
    ghost var s := scalar[..];
    for j := 0 to 3
      invariant forall t :: 0 <= t < j ==> scalar[t] == Shifted(s[t], s[t + 1])
      invariant forall t :: j <= t < 4 ==> scalar[t] == s[t]
    {
      scalar[j] := Shifted(scalar[j], scalar[j + 1]);
    }
    scalar[3] := scalar[3] / 2;
    HalfValue(s, scalar[..]);
  }

  lemma HalfWord(low: int, high: int)
    requires IsWord(low) && IsWord(high)
    ensures IsWord(Shifted(low, high)) && 2 * Shifted(low, high) + low % 2 == low + WORD * (high % 2)
  {
    DivModUnique(high * 0x8000_0000_0000_0000, high / 2, high % 2 * 0x8000_0000_0000_0000, WORD);
  }

  lemma HalfValue(s: seq<int>, t: seq<int>)
    requires FourWords(s) && |t| == 4 && t[3] == s[3] / 2
    requires forall i :: 0 <= i < 3 ==> t[i] == Shifted(s[i], s[i + 1])
    ensures FourWords(t) && Value(t) == Value(s) / 2
  {
    hide Shifted;
    HalfWord(s[0], s[1]);
    HalfWord(s[1], s[2]);
    HalfWord(s[2], s[3]);
    assert 2 * Value(t) + s[0] % 2 == Value(s);
  }

  /** A word plus a carry, and the carry out: it goes on only when the sum has wrapped to 0. */
  function Sum(x: int, c: int): int { (x + c) % WORD }
  function CarryOut(x: int, c: int): int { if Sum(x, c) == 0 then c else 0 }

  /** The carry into word j when c is added. */
  function CarryInto(s: seq<int>, c: int, j: nat): int
    requires j <= |s|
  {
    if j == 0 then c else CarryOut(s[j - 1], CarryInto(s, c, j - 1))
  }

  lemma AddWord(x: int, c: int)
    requires IsWord(x) && (c == 0 || c == 1)
    ensures Sum(x, c) == x + c - WORD * CarryOut(x, c) && IsWord(Sum(x, c)) && (CarryOut(x, c) == 0 || CarryOut(x, c) == 1)
  {
  }

  /** Adds 0 or 1, word by word. */
  method AddBit(scalar: array<int>, temp: int)
    requires scalar.Length == 4 && FourWords(scalar[..]) && (temp == 0 || temp == 1)
    requires Value(scalar[..]) + temp < QUAD_WORD
    modifies scalar
    ensures FourWords(scalar[..]) && Value(scalar[..]) == Value(old(scalar[..])) + temp
  {
    hide Value, FourWords, Sum;
    ghost var s := scalar[..];
    scalar[0] := Sum(scalar[0], temp);
    var carry := if scalar[0] == 0 then temp else 0;
    assert CarryInto(s, temp, 1) == CarryOut(s[0], CarryInto(s, temp, 0));
    for j := 1 to 4
      invariant carry == CarryInto(s, temp, j)
      invariant forall t :: 0 <= t < j ==> scalar[t] == Sum(s[t], CarryInto(s, temp, t))
      invariant forall t :: j <= t < 4 ==> scalar[t] == s[t]
    {
      scalar[j] := Sum(scalar[j], carry);
      carry := if scalar[j] == 0 then carry else 0;
      assert CarryInto(s, temp, j + 1) == CarryOut(s[j], CarryInto(s, temp, j));
    }
    RippleValue(s, temp, scalar[..]);
  }

  lemma RippleValue(s: seq<int>, c: int, t: seq<int>)
    requires FourWords(s) && (c == 0 || c == 1) && |t| == 4 && Value(s) + c < QUAD_WORD
    requires forall i :: 0 <= i < 4 ==> t[i] == Sum(s[i], CarryInto(s, c, i))
    ensures FourWords(t) && Value(t) == Value(s) + c
  {
    hide Sum, CarryOut;
    var c1, c2, c3, c4 := CarryInto(s, c, 1), CarryInto(s, c, 2), CarryInto(s, c, 3), CarryInto(s, c, 4);
    AddWord(s[0], c);
    assert c1 == CarryOut(s[0], CarryInto(s, c, 0));
    AddWord(s[1], c1);
    assert c2 == CarryOut(s[1], c1);
    AddWord(s[2], c2);
    assert c3 == CarryOut(s[2], c2);
    AddWord(s[3], c3);
    assert c4 == CarryOut(s[3], c3);
    assert Value(t) == Value(s) + c - QUAD_WORD * c4;
    ValueRange(t);
  }

  /** While the sign row is written: i signs so far, rem the scalar shifted by i + 1. */
  ghost predicate SignRow(k: int, rem: int, e: seq<int>, i: nat, m: nat) {
    && i < D <= m && i <= |e| && 0 <= rem < Pow2(m - i - 1)
    && Expansion(e, 0, i) + Pow2(i) * (1 + 2 * rem) == k - k % 2 + 1
  }

  lemma Distribute(p: int, d: int, next: int, now: int)
    requires now == d + 2 * next
    ensures p * now == p * d + 2 * p * next
  {
    MulAssoc(2, p, next);
    assert p * (d + 2 * next) == p * d + p * (2 * next);
  }

  lemma SignStep(k: int, rem: int, e: seq<int>, f: seq<int>, i: nat, m: nat)
    requires SignRow(k, rem, e, i, m) && i + 1 < D && i < |f|
    requires forall t :: 0 <= t < i ==> f[t] == e[t]
    requires f[i] == if rem % 2 == 1 then 1 else -1
    ensures SignRow(k, rem / 2, f, i + 1, m)
  {
    ExpansionExtends(e, f, 0, i);
    Distribute(Pow2(i), f[i], 1 + 2 * (rem / 2), 1 + 2 * rem);
  }

  /** Above the sign row: i digits so far. */
  ghost predicate Above(k: int, rem: int, e: seq<int>, i: nat, m: nat) {
    && i <= |e| && 0 <= rem && (if i <= m then rem <= Pow2(m - i) else rem == 0)
    && Expansion(e, 0, i) + Pow2(i) * rem == k - k % 2 + 1
  }

  lemma LastSign(k: int, rem: int, e: seq<int>, f: seq<int>, m: nat)
    requires SignRow(k, rem, e, D - 1, m) && |f| >= D
    requires forall t :: 0 <= t < D - 1 ==> f[t] == e[t]
    requires f[D - 1] == 1
    ensures Above(k, rem, f, D, m)
  {
    ExpansionExtends(e, f, 0, D - 1);
    Distribute(Pow2(D - 1), 1, rem, 1 + 2 * rem);
  }

  /** A digit under a negative sign leaves a carry, except in the last column, whose sign is positive. */
  lemma AboveStep(k: int, rem: int, e: seq<int>, f: seq<int>, i: nat, m: nat, sign: int, temp: int)
    requires Above(k, rem, e, i, m) && i < |f| && (sign == 1 || sign == -1)
    requires i == m ==> sign == 1
    requires forall t :: 0 <= t < i ==> f[t] == e[t]
    requires f[i] == sign * (rem % 2) && temp == if sign == -1 then rem % 2 else 0
    ensures Above(k, rem / 2 + temp, f, i + 1, m)
  {
    ExpansionExtends(e, f, 0, i);
    Distribute(Pow2(i), f[i], rem / 2 + temp, rem);
    if i < m {
      assert Pow2(m - i) == 2 * Pow2(m - i - 1);
    }
  }

  /** What the recoding leaves: the digits and, of the scalar, what did not fit into them. */
  ghost predicate Recoded(k: int, digits: seq<int>, rem: int)
    requires |digits| >= L
  {
    && (forall i :: 0 <= i < D ==> digits[i] == 0 || digits[i] == MINUS_ONE)
    && (forall i :: D <= i < L ==> digits[i] == 0 || digits[i] == 1)
    && Expansion(SignedDigits(digits), 0, L) + Pow2(L) * rem == k - k % 2 + 1
    && 0 <= rem && (k < Pow2(249) ==> rem == 0)
  }

  ghost predicate SignLoop(k: int, digits: seq<int>, rem: int, i: nat, m: nat)
    requires |digits| >= L
  {
    && i < D && (forall t :: 0 <= t < i ==> digits[t] == 0 || digits[t] == MINUS_ONE)
    && digits[D - 1] == 0
    && SignRow(k, rem, SignedDigits(digits), i, m)
  }

  ghost predicate AboveLoop(k: int, digits: seq<int>, rem: int, i: nat, m: nat)
    requires |digits| >= L
  {
    && D <= i <= L && (forall t :: 0 <= t < D ==> digits[t] == 0 || digits[t] == MINUS_ONE)
    && digits[D - 1] == 0
    && (forall t :: D <= t < i ==> digits[t] == 0 || digits[t] == 1)
    && Above(k, rem, SignedDigits(digits), i, m)
  }

  lemma SignLoopStart(k: int, digits: seq<int>, m: nat)
    requires |digits| >= L && digits[D - 1] == 0 && m > D && 0 <= k < Pow2(m)
    ensures SignLoop(k, digits, k / 2, 0, m)
  {
    assert Pow2(0) == 1;
  }

  lemma SignLoopStep(k: int, digits: seq<int>, rem: int, i: nat, m: nat, digits': seq<int>)
    requires |digits| == |digits'| >= L && SignLoop(k, digits, rem, i, m) && i < D - 1
    requires digits' == digits[i := if rem % 2 == 1 then 0 else MINUS_ONE]
    ensures SignLoop(k, digits', rem / 2, i + 1, m)
  {
    hide SignRow;
    SignStep(k, rem, SignedDigits(digits), SignedDigits(digits'), i, m);
  }

  lemma AboveLoopStart(k: int, digits: seq<int>, rem: int, m: nat)
    requires |digits| >= L && SignLoop(k, digits, rem, D - 1, m)
    ensures AboveLoop(k, digits, rem, D, m)
  {
    LastSign(k, rem, SignedDigits(digits), SignedDigits(digits), m);
  }

  lemma AboveLoopStep(k: int, digits: seq<int>, rem: int, i: nat, m: nat, digits': seq<int>, temp: int)
    requires |digits| == |digits'| >= L && AboveLoop(k, digits, rem, i, m) && i < L && (m == 249 || m == 256)
    requires digits' == digits[i := rem % 2]
    requires temp == Round(digits[i % D], rem)
    ensures AboveLoop(k, digits', rem / 2 + temp, i + 1, m)
  {
    hide Above;
    AboveStep(k, rem, SignedDigits(digits), SignedDigits(digits'), i, m, RowSign(digits[i % D]), temp);
  }

  /** The most significant digit is under the positive sign of the last column, so for k below 2^249 it takes in
      the last carry and nothing is left over. */
  lemma AboveLoopEnd(k: int, digits: seq<int>, rem: int, m: nat)
    requires |digits| >= L && AboveLoop(k, digits, rem, L, m) && m == if k < Pow2(249) then 249 else 256
    ensures Recoded(k, digits, rem)
  {
  }

  lemma Range(s: seq<int>)
    requires FourWords(s)
    ensures 0 <= Value(s) < Pow2(256) && s[0] % 2 == Value(s) % 2
  {
    hide Pow2;
    ValueRange(s);
    QuadWordIsPow2();
  }

  lemma ColumnOf(i: nat)
    ensures i - (i / D) * D == i % D && 0 <= i % D < D
  {
  }

  /** All ones if the low bit is 0, else 0; then the scalar moves on. */
  method WriteSign(scalar: array<int>, digits: array<int>, i: nat)
    requires scalar.Length == 4 && FourWords(scalar[..]) && digits.Length >= L && scalar != digits && i < D
    modifies scalar, digits
    ensures FourWords(scalar[..]) && Value(scalar[..]) == Value(old(scalar[..])) / 2
    ensures digits[..] == old(digits[..])[i := if Value(old(scalar[..])) % 2 == 1 then 0 else MINUS_ONE]
  {
    hide Value, FourWords;
    Range(scalar[..]);
    ghost var ds := digits[..];
    var x := (scalar[0] % 2 - 1) % 0x1_0000_0000;
    assert x == if Value(scalar[..]) % 2 == 1 then 0 else MINUS_ONE;
    digits[i] := x;
    assert digits[..] == ds[i := x];
    ShiftRight(scalar);
  }

  /** Halving rounds up exactly when the bit shifted out counts as -1. */
  function Round(sign: int, rem: int): int { if sign == MINUS_ONE && rem % 2 == 1 then 1 else 0 }

  /** `(0 - sign) & bit` on 32-bit words. */
  function Temp(sign: int, bit: int): int { if (0 - sign) % 0x1_0000_0000 == 1 && bit == 1 then 1 else 0 }

  lemma TempIsRound(sign: int, rem: int)
    requires sign == 0 || sign == MINUS_ONE
    ensures Temp(sign, rem % 2) == Round(sign, rem)
  {
  }

  /** The low bit is written and the scalar halved, rounding as above. */
  method WriteDigit(scalar: array<int>, digits: array<int>, i: nat)
    requires scalar.Length == 4 && FourWords(scalar[..]) && digits.Length >= L && scalar != digits && D <= i < L
    requires digits[i % D] == 0 || digits[i % D] == MINUS_ONE
    modifies scalar, digits
    ensures FourWords(scalar[..])
    ensures digits[..] == old(digits[..])[i := Value(old(scalar[..])) % 2]
    ensures var rem := Value(old(scalar[..])); Value(scalar[..]) == rem / 2 + Round(old(digits[i % D]), rem)
  {
    hide Value, FourWords, Temp, Round;
    ColumnOf(i);
    Range(scalar[..]);
    ValueRange(scalar[..]);
    ghost var ds, sign, rem := digits[..], digits[i % D], Value(scalar[..]);
    digits[i] := scalar[0] % 2;
    assert digits[..] == ds[i := rem % 2];
    ShiftRight(scalar);
    TempIsRound(sign, rem);
    RoundSmall(sign, rem);
    AddBit(scalar, Temp(digits[i - (i / D) * D], digits[i]));
  }

  lemma RoundSmall(sign: int, rem: nat)
    requires rem < QUAD_WORD
    ensures rem / 2 + Round(sign, rem) < QUAD_WORD && (Round(sign, rem) == 0 || Round(sign, rem) == 1)
  {
  }

  /** Beyond the recoding's own entries the arrays agree. */
  ghost predicate SameTail(s: seq<int>, t: seq<int>) {
    |s| == |t| >= L && s[L..] == t[L..]
  }

  lemma TailKept(s: seq<int>, t: seq<int>, i: nat, x: int)
    requires SameTail(s, t) && i < L
    ensures SameTail(s[i := x], t)
  {
  }

  method WriteSigns(scalar: array<int>, digits: array<int>, ghost k: int, ghost m: nat)
    requires scalar.Length == 4 && FourWords(scalar[..]) && digits.Length >= L && scalar != digits
    requires SignLoop(k, digits[..], Value(scalar[..]), 0, m)
    modifies scalar, digits
    ensures FourWords(scalar[..]) && SignLoop(k, digits[..], Value(scalar[..]), D - 1, m)
    ensures SameTail(digits[..], old(digits[..]))
  {
    hide Value, FourWords, SignLoop, SameTail;
    ghost var start := digits[..];
    TailItself(start);
    for i := 0 to D - 1
      invariant FourWords(scalar[..]) && SignLoop(k, digits[..], Value(scalar[..]), i, m)
      invariant SameTail(digits[..], start)
    {
      ghost var ds, rem := digits[..], Value(scalar[..]);
      WriteSign(scalar, digits, i);
      SignLoopStep(k, ds, rem, i, m, digits[..]);
      TailKept(ds, start, i, digits[i]);
    }
  }

  method WriteDigits(scalar: array<int>, digits: array<int>, ghost k: int, ghost m: nat)
    requires scalar.Length == 4 && FourWords(scalar[..]) && digits.Length >= L && scalar != digits
    requires AboveLoop(k, digits[..], Value(scalar[..]), D, m) && (m == 249 || m == 256)
    modifies scalar, digits
    ensures FourWords(scalar[..]) && AboveLoop(k, digits[..], Value(scalar[..]), L, m)
    ensures SameTail(digits[..], old(digits[..]))
  {
    hide Value, FourWords, AboveLoop, SameTail;
    ghost var start := digits[..];
    TailItself(start);
    for i := D to L
      invariant FourWords(scalar[..]) && AboveLoop(k, digits[..], Value(scalar[..]), i, m)
      invariant SameTail(digits[..], start)
    {
      ghost var ds, rem := digits[..], Value(scalar[..]);
      SignEntry(k, ds, rem, i, m);
      WriteDigit(scalar, digits, i);
      AboveLoopStep(k, ds, rem, i, m, digits[..], Round(ds[i % D], rem));
      TailKept(ds, start, i, digits[i]);
    }
  }

  /** Entries 0 to 49 get the signs, entries 50 to 249 the binary digits; nothing else is written. For every
      256-bit scalar the digits and the rest reproduce the scalar if it is odd (and the next odd number
      otherwise), and the rest is 0 for a scalar below 2^249. */
  method MlsbSetRecode(scalar: array<int>, digits: array<int>)
    requires scalar.Length == 4 && FourWords(scalar[..]) && digits.Length >= L && scalar != digits
    modifies scalar, digits
    ensures FourWords(scalar[..]) && Recoded(Value(old(scalar[..])), digits[..], Value(scalar[..]))
    ensures SameTail(digits[..], old(digits[..]))
  {
    hide Value, FourWords, SignLoop, AboveLoop, Recoded;
    ghost var k := Value(scalar[..]);
    ghost var m := if k < Pow2(249) then 249 else 256;
    Range(scalar[..]);
    digits[D - 1] := 0;
    ShiftRight(scalar);
    SignLoopStart(k, digits[..], m);
    WriteSigns(scalar, digits, k, m);
    AboveLoopStart(k, digits[..], Value(scalar[..]), m);
    WriteDigits(scalar, digits, k, m);
    AboveLoopEnd(k, digits[..], Value(scalar[..]), m);
  }

  lemma TailItself(s: seq<int>)
    requires |s| >= L
    ensures SameTail(s, s)
  {
  }

  lemma SignEntry(k: int, digits: seq<int>, rem: int, i: nat, m: nat)
    requires |digits| >= L && AboveLoop(k, digits, rem, i, m)
    ensures D <= i && (digits[i % D] == 0 || digits[i % D] == MINUS_ONE)
  {
  }
}
