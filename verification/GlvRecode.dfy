/** The four-dimensional recoding of `recode` (eccp2.c): four 64-bit sub-scalars become 65 signed digits,
    in place, with sub-scalar 0 giving the signs. */
module GlvRecode {
  import opened ModArith
  import opened BinarySums
  import opened Words

  const ALL_ONES: int := 0xFFFF_FFFF

  /** The sign a mask stands for: all ones is positive, 0 negative. */
  function Sign(mask: int): int { if mask == ALL_ONES then 1 else -1 }

  /** What a digit contributes to sub-scalar j: the table entry always holds the base point once, and bits
      0, 1 and 2 of the index say which endomorphism images it holds. */
  function Weight(digit: int, j: nat): int
    requires j < 4
  {
    if j == 0 then 1 else if j == 1 then digit % 2 else if j == 2 then (digit / 2) % 2 else (digit / 4) % 2
  }

  /** The signed digits that stand for sub-scalar j. */
  function Signed(digits: seq<int>, masks: seq<int>, j: nat): (r: seq<int>)
    requires |digits| == |masks| && j < 4
    ensures |r| == |digits|
    ensures forall i :: 0 <= i < |r| ==> r[i] == Sign(masks[i]) * Weight(digits[i], j)
  {
    seq(|digits|, i requires 0 <= i < |digits| => Sign(masks[i]) * Weight(digits[i], j))
  }

  predicate IsBit(b: int) { b == 0 || b == 1 }

  function Or(a: int, b: int): int { if a == 1 || b == 1 then 1 else 0 }
  function Xor(a: int, b: int): int { if a == b then 0 else 1 }

  /** `(a >> 1) + ((bit0 | bit) ^ bit0)` on a 64-bit word, where bit is the bit shifted out. */
  function Halved(a: int, bit0: int): int
    requires IsBit(bit0)
  {
    (a / 2 + Xor(Or(bit0, a % 2), bit0)) % WORD
  }

  /** Sub-scalar a, of which `now` is left after i of n steps. */
  ghost predicate Tracks(a: int, now: int, e: seq<int>, i: nat, n: nat) {
    && i <= n <= 64 && i <= |e| && 0 <= now <= Pow2(n - i)
    && Expansion(e, 0, i) + Pow2(i) * now == a
  }

  lemma Pow2Fits(m: nat)
    requires m < 64
    ensures 2 * Pow2(m) <= WORD
  {
    Pow2Add(m, 63 - m);
    WordIsPow2();
    MulAtLeast(Pow2(m), Pow2(63 - m));
    assert Pow2(64) == 2 * Pow2(63);
  }

  lemma HalvedExact(now: int, bit0: int, p: int)
    requires 0 <= now <= 2 * p <= WORD && IsBit(bit0)
    ensures 0 <= Halved(now, bit0) <= p
    ensures now == (if bit0 == 1 then 1 else -1) * (now % 2) + 2 * Halved(now, bit0)
  {
    var next := now / 2 + Xor(Or(bit0, now % 2), bit0);
    assert Halved(now, bit0) == next;
  }

  lemma StepExact(now: int, bit0: int, m: nat)
    requires 0 <= now <= Pow2(m + 1) && m < 64 && IsBit(bit0)
    ensures 0 <= Halved(now, bit0) <= Pow2(m)
    ensures now == (if bit0 == 1 then 1 else -1) * (now % 2) + 2 * Halved(now, bit0)
  {
    Pow2Fits(m);
    HalvedExact(now, bit0, Pow2(m));
  }

  lemma MulAtLeast(x: nat, y: nat)
    requires y > 0
    ensures x <= x * y
  {
  }

  lemma Distribute(p: int, d: int, next: int, now: int)
    requires now == d + 2 * next
    ensures p * now == p * d + 2 * p * next
  {
    MulAssoc(2, p, next);
    assert p * (d + 2 * next) == p * d + p * (2 * next);
  }

  lemma TracksStep(a: int, now: int, e: seq<int>, f: seq<int>, i: nat, n: nat, bit0: int)
    requires Tracks(a, now, e, i, n) && i < n && i < |f| && IsBit(bit0)
    requires forall t :: 0 <= t < i ==> f[t] == e[t]
    requires f[i] == (if bit0 == 1 then 1 else -1) * (now % 2)
    ensures Tracks(a, Halved(now, bit0), f, i + 1, n)
  {
    hide Halved;
    StepExact(now, bit0, n - i - 1);
    ExpansionExtends(e, f, 0, i);
    Distribute(Pow2(i), f[i], Halved(now, bit0), now);
  }

  /** Sub-scalar 0: only shifted, its bits giving the signs one place down. */
  ghost predicate TracksFirst(a: int, now: int, e: seq<int>, i: nat, n: nat) {
    && i <= n <= 64 && i <= |e| && 0 <= now < Pow2(n - i)
    && Expansion(e, 0, i) + Pow2(i) * (1 + now - now % 2) == a - a % 2 + 1
  }

  lemma TracksFirstStep(a: int, now: int, e: seq<int>, f: seq<int>, i: nat, n: nat)
    requires TracksFirst(a, now, e, i, n) && i < n && i < |f|
    requires forall t :: 0 <= t < i ==> f[t] == e[t]
    requires f[i] == if (now / 2) % 2 == 1 then 1 else -1
    ensures TracksFirst(a, now / 2, f, i + 1, n)
  {
    ExpansionExtends(e, f, 0, i);
    Distribute(Pow2(i), f[i], 1 + now / 2 - now / 2 % 2, 1 + now - now % 2);
  }

  /** What the 65 digits stand for. For an even sub-scalar 0 the signs give the next odd number. */
  ghost predicate Recoded(s: seq<int>, digits: seq<int>, masks: seq<int>)
    requires |s| == 4
  {
    && |digits| == |masks| == 65
    && (forall i :: 0 <= i < 65 ==> 0 <= digits[i] <= 7 && (masks[i] == 0 || masks[i] == ALL_ONES))
    && Expansion(Signed(digits, masks, 0), 0, 65) == s[0] - s[0] % 2 + 1
    && (forall j :: 1 <= j < 4 ==> Expansion(Signed(digits, masks, j), 0, 65) == s[j])
  }

  ghost predicate Loop(s: seq<int>, now: seq<int>, digits: seq<int>, masks: seq<int>, i: nat)
    requires |s| == |now| == 4
  {
    && |digits| == |masks| == 65 && i <= 64 && masks[64] == ALL_ONES
    && (forall t :: 0 <= t < i ==> 0 <= digits[t] <= 7 && (masks[t] == 0 || masks[t] == ALL_ONES))
    && TracksFirst(s[0], now[0], Signed(digits, masks, 0), i, 64)
    && Tracks(s[1], now[1], Signed(digits, masks, 1), i, 64)
    && Tracks(s[2], now[2], Signed(digits, masks, 2), i, 64)
    && Tracks(s[3], now[3], Signed(digits, masks, 3), i, 64)
  }

  lemma TopWeights(a: int, b: int, c: int)
    requires IsBit(a) && IsBit(b) && IsBit(c)
    ensures Weight(a + 2 * b + 4 * c, 1) == a && Weight(a + 2 * b + 4 * c, 2) == b && Weight(a + 2 * b + 4 * c, 3) == c
  {
  }

  lemma FirstWeight(d: int)
    ensures Weight(d, 0) == 1
  {
  }

  /** Changing entry i changes term i only. */
  lemma SignedStep(digits: seq<int>, masks: seq<int>, digits': seq<int>, masks': seq<int>, i: nat, j: nat)
    requires |digits| == |masks| == |digits'| == |masks'| == 65 && i < 65 && j < 4
    requires forall t :: 0 <= t <= 64 && t != i ==> digits'[t] == digits[t] && masks'[t] == masks[t]
    ensures forall t :: 0 <= t < i ==> Signed(digits', masks', j)[t] == Signed(digits, masks, j)[t]
    ensures Signed(digits', masks', j)[i] == Sign(masks'[i]) * Weight(digits'[i], j)
  {
    hide Sign, Weight;
  }

  /** One turn of the loop on the words. */
  lemma LoopStep(s: seq<int>, now: seq<int>, digits: seq<int>, masks: seq<int>, i: nat, digits': seq<int>, masks': seq<int>)
    requires |s| == |now| == 4 && Loop(s, now, digits, masks, i) && i < 64
    requires |digits'| == |masks'| == 65
    requires forall t :: 0 <= t <= 64 && t != i ==> digits'[t] == digits[t] && masks'[t] == masks[t]
    requires digits'[i] == now[1] % 2 + 2 * (now[2] % 2) + 4 * (now[3] % 2)
    requires masks'[i] == if (now[0] / 2) % 2 == 1 then ALL_ONES else 0
    ensures var bit := (now[0] / 2) % 2;
            Loop(s, [now[0] / 2, Halved(now[1], bit), Halved(now[2], bit), Halved(now[3], bit)], digits', masks', i + 1)
  {
    hide Halved, Tracks, TracksFirst, Signed, Weight;
    var bit0 := (now[0] / 2) % 2;
    TopWeights(now[1] % 2, now[2] % 2, now[3] % 2);
    FirstWeight(digits'[i]);
    SignedStep(digits, masks, digits', masks', i, 0);
    SignedStep(digits, masks, digits', masks', i, 1);
    SignedStep(digits, masks, digits', masks', i, 2);
    SignedStep(digits, masks, digits', masks', i, 3);
    TracksFirstStep(s[0], now[0], Signed(digits, masks, 0), Signed(digits', masks', 0), i, 64);
    TracksStep(s[1], now[1], Signed(digits, masks, 1), Signed(digits', masks', 1), i, 64, bit0);
    TracksStep(s[2], now[2], Signed(digits, masks, 2), Signed(digits', masks', 2), i, 64, bit0);
    TracksStep(s[3], now[3], Signed(digits, masks, 3), Signed(digits', masks', 3), i, 64, bit0);
  }

  lemma LoopStart(s: seq<int>, digits: seq<int>, masks: seq<int>)
    requires |s| == 4 && |digits| == |masks| == 65 && masks[64] == ALL_ONES
    requires forall j :: 0 <= j < 4 ==> 0 <= s[j] < WORD
    ensures Loop(s, s, digits, masks, 0)
  {
    WordIsPow2();
  }

  lemma TopDigit(a: int, now: int, e: seq<int>, f: seq<int>)
    requires Tracks(a, now, e, 64, 64) && |f| == 65 && f[64] == now
    requires forall t :: 0 <= t < 64 ==> f[t] == e[t]
    ensures Expansion(f, 0, 65) == a
  {
    ExpansionExtends(e, f, 0, 64);
  }

  lemma TopFits(s: seq<int>, now: seq<int>, digits: seq<int>, masks: seq<int>)
    requires |s| == |now| == 4 && Loop(s, now, digits, masks, 64)
    ensures forall j :: 1 <= j < 4 ==> 0 <= now[j] <= 1
  {
    WordIsPow2();
    assert Tracks(s[1], now[1], Signed(digits, masks, 1), 64, 64);
    assert Tracks(s[2], now[2], Signed(digits, masks, 2), 64, 64);
    assert Tracks(s[3], now[3], Signed(digits, masks, 3), 64, 64);
  }

  lemma FirstEnd(a: int, now: int, e: seq<int>, f: seq<int>)
    requires TracksFirst(a, now, e, 64, 64) && |f| == 65 && f[64] == 1
    requires forall t :: 0 <= t < 64 ==> f[t] == e[t]
    ensures Expansion(f, 0, 65) == a - a % 2 + 1
  {
    WordIsPow2();
    ExpansionExtends(e, f, 0, 64);
  }

  lemma LoopEnd(s: seq<int>, now: seq<int>, digits: seq<int>, masks: seq<int>, digits': seq<int>)
    requires |s| == |now| == 4 && Loop(s, now, digits, masks, 64)
    requires |digits'| == 65 && digits'[64] == now[1] + 2 * now[2] + 4 * now[3]
    requires forall t :: 0 <= t < 64 ==> digits'[t] == digits[t]
    ensures Recoded(s, digits', masks)
  {
    hide Tracks, TracksFirst, Expansion, Weight, Signed;
    TopFits(s, now, digits, masks);
    TopWeights(now[1], now[2], now[3]);
    FirstWeight(digits'[64]);
    SignedStep(digits, masks, digits', masks, 64, 0);
    SignedStep(digits, masks, digits', masks, 64, 1);
    SignedStep(digits, masks, digits', masks, 64, 2);
    SignedStep(digits, masks, digits', masks, 64, 3);
    FirstEnd(s[0], now[0], Signed(digits, masks, 0), Signed(digits', masks, 0));
    TopDigit(s[1], now[1], Signed(digits, masks, 1), Signed(digits', masks, 1));
    TopDigit(s[2], now[2], Signed(digits, masks, 2), Signed(digits', masks, 2));
    TopDigit(s[3], now[3], Signed(digits, masks, 3), Signed(digits', masks, 3));
  }

  /** Recodes the sub-scalars in place (only their top bits are left afterwards). Digits and masks are arrays of
      65 entries. Every 64-bit sub-scalar is reproduced exactly by its signed digits: no carry is lost although
      the words are 64 bits wide, and the top digit is a table index. */
  method Recode(scalars: array<int>, digits: array<int>, signMasks: array<int>)
    requires scalars.Length == 4 && digits.Length == signMasks.Length == 65
    requires digits != signMasks && scalars != digits && scalars != signMasks
    requires FourWords(scalars[..])
    modifies scalars, digits, signMasks
    ensures Recoded(old(scalars[..]), digits[..], signMasks[..])
  {
    hide Loop, Halved;
    ghost var s := scalars[..];
    signMasks[64] := ALL_ONES;
    LoopStart(s, digits[..], signMasks[..]);
    for i := 0 to 64
      invariant Loop(s, scalars[..], digits[..], signMasks[..], i)
    {
      ghost var now, ds, ms := scalars[..], digits[..], signMasks[..];
      scalars[0] := scalars[0] / 2;
      var bit0 := scalars[0] % 2;
      signMasks[i] := (0 - bit0) % 0x1_0000_0000;

      var bit := scalars[1] % 2;
      scalars[1] := Halved(scalars[1], bit0);
      digits[i] := bit;

      bit := scalars[2] % 2;
      scalars[2] := Halved(scalars[2], bit0);
      digits[i] := digits[i] + 2 * bit;

      bit := scalars[3] % 2;
      scalars[3] := Halved(scalars[3], bit0);
      digits[i] := digits[i] + 4 * bit;

      LoopStep(s, now, ds, ms, i, digits[..], signMasks[..]);
      assert scalars[..] == [now[0] / 2, Halved(now[1], bit0), Halved(now[2], bit0), Halved(now[3], bit0)];
    }
    ghost var now, ds := scalars[..], digits[..];
    TopFits(s, now, ds, signMasks[..]);
    digits[64] := (scalars[1] + 2 * scalars[2] + 4 * scalars[3]) % 0x1_0000_0000;
    LoopEnd(s, now, ds, signMasks[..], digits[..]);
  }
}
